# Models of the DM9000 Ethernet driver and of the VFS read/write layer

Two parts of the repository are modelled and proved: the DM9000 Ethernet driver
(`dm9dev9000c_100ask.c`) together with the chip it drives, and the Linux 2.6.22 read/write layer
(`read_write.c`). `dafny verify dfyconfig.toml` checks everything.

## The driver

`Driver.Board` (Board.dfy) is the driver as the source has it: an object with the fields of
`board_info`, whose methods read and write chip registers through an index port and a data port
(`Dm9000.Chip`). Every event method is proved to follow a step function of `NetModel`, an abstract
machine over counters, flags, the list of packets waiting in the receive ring and the transmit ring.
The theorems about runs are lemmas about that machine; `Sessions` carries them back to the board's
own fields.

| file | content |
|---|---|
| Bytes, Bits, Words, Tapes, BusMode | bytes, bit operations, fixed-width arithmetic, hardware answers, bus widths |
| TxRing, RxRing | the two wrapping rings; packets, their encoding in memory, and the proof that memory determines the packets |
| TxHistory | what passes between driver and transmitter, and what the packet counter may make of it |
| Dm9000 | the chip behind its two ports |
| MulticastFilter | the hash filter and the CRC |
| NetModel, Board | the abstract machine; the driver that refines it |
| ReceiveProperties, RunProperties, TransmitProperties, DriverTheorems, Sessions | what calls, events and runs keep |
| PointerPredictions | the pointer arithmetic the driver checks under TDBUG and RDBG |

Events are whole driver calls (open, stop, transmit, interrupt, watchdog, timer, filter update with a new
list), packet
arrivals and a spoilt ready byte. Only a transmit call is divided: any number of complete interrupt
handlers may run between any two of its port accesses (`gaps`), each of which may reset the chip.
The hardware goes on receiving between two rounds of the receive loop (`RxTick`).

The chip keeps a history of what passed between it and the driver about transmission: reads of NSR,
polls of TCR, transmit commands with the transmit memory and the length registers as they then are,
resets. The board keeps every value its packet counter was given, with
the length of that history at the time. Both are part of the abstract state, so that every step says
exactly what it adds to them.

### What is assumed of the chip

The chip is not in the repository. The driver and the register names fix most of it; the rest is
assumed:

- Reading MRCMDX does not move the read pointer; MRCMD and MWCMD move theirs by the bus width.
- While IMR bit 7 ("PAR") is set, the read pointer goes from 0x4000 back to 0x0C00 and the write
  pointer from 0x0C00 back to 0. That every access of the driver finds the bit set is proved.
- A software reset (NCR bit 0) puts the read pointer at 0x0C00 with a 0 ready byte there, puts the
  write pointer at 0 and clears IMR and ISR.
- A software reset leaves the length registers as they are; what is stated of them is about runs
  without one.
- The chip stores packets only complete and well formed (ready byte 1, status, length, payload padded
  to the bus width, at least 4 bytes if the status is good) and loses those that do not fit.
- Writing ISR clears the bits written; its two top bits give the bus width: word, dword or byte.
- NSR, TCR bit 0, EPCR bit 0 and the link bit of PHY register 1 change by themselves: they answer
  from finite but otherwise arbitrary sequences, so that every busy-wait ends.
- Behind the `length + 4` bytes asked for a socket buffer there is at least one byte of memory.
- Memory is little-endian, and the wider accesses may read up to three arbitrary bytes behind a frame
  (`Slack`).

### What the proofs found in the driver

- A link change restarts the queue whatever the counter says. `LinkChangeQueue` states, for every
  handler that serves one, exactly when the flag is right afterwards; `QueueFlagExact` says the same of
  every reachable state; `LinkChangeRefuses` gives a run that ends with the queue running and the next frame refused.
- The receive copy loop leaves the `length + 2` bytes of its buffer exactly in dword mode when the
  length is one above a multiple of four, by one byte (`CopyPayload`); a good packet of 65 bytes does it
  (`OverrunReceivable`).
- The one-subtraction pointer predictions are right exactly when the advance ends before the ring's
  second turn is over; that covers every advance up to the ring's size.
- The watchdog's hundredth poll makes no difference (`WatchdogPollsTooOften`).
- Promiscuous and all-multicast mode do not survive initialisation: RXCR ends as 0x31
  (`StartChip`).
- The multicast hash takes the CRC register as it is, without the final complement the standard puts
  on the CRC of a frame (`HashIsStandard`).

## The read/write layer

`OpenFiles`, `Seeks`, `Iovecs`, `VectoredIo`, `ReadvWritev` and `Sendfile` model an open file with a
position and contents, the calls that move the position, vectored transfers and sendfile. `size_t`
and `ssize_t` are 32 bits wide, `loff_t` 64, with two's complement wrap-around written out where the
source computes in them. A file operation either fails without effect or transfers nr bytes, nr at
most what it was asked for, and advances the position by nr. What locks, security module, allocator,
user-space copies and the file operation answer are parameters.

What the proofs found:

- `iov_shorten` is right if and only if no segment that begins before `to` ends beyond `size_t`;
  `ShortenCanFail` is a vector for which it is wrong. Vectors that passed the check are safe.
- `sys_lseek` can return EOVERFLOW although it moved the file: exactly when the target is accepted
  and at least 2^31 (`LseekFailsMoved`, and `LseekFailsMovedAt` at an input).
- The final size check of `do_sendfile` can never trigger when the operation keeps its contract
  (`Sendfile.Send`).

Constants the repository's excerpt does not define: the errno values, UIO_MAXIOV = 1024,
UIO_FASTIOV = 8, a page size of 4096 bytes (in MAX_RW_COUNT), and SEEK_MAX = 2. `cal_CRC` calls the
kernel's `ether_crc_le`, which is modelled bit by bit.

## Model

| member | source | states |
|---|---|---|
| RxRing.RingDecides | Base_on_linux-2.6.22.6_S3C2440/dm9000c/dm9dev9000c_100ask.c:1184-1367 | the bytes of the ring determine the packet list and the end byte: no two lists fit the same memory at the same read pointer |
| RxRing.FirstPacket | Base_on_linux-2.6.22.6_S3C2440/dm9000c/dm9dev9000c_100ask.c:1191-1240 | where a packet is pending the driver finds ready byte 1, status and length at the read pointer, the payload 4 bytes on, and the rest of the list just behind it, across the wrap |
| RxRing.ArrivalHolds | Base_on_linux-2.6.22.6_S3C2440/dm9000c/dm9dev9000c_100ask.c:1184-1205 | packets the chip stores behind the pending ones extend the list the ring holds and leave the transmit memory alone |
| RxRing.RingUntouched | Base_on_linux-2.6.22.6_S3C2440/dm9000c/dm9dev9000c_100ask.c:801-820 | the receive ring does not depend on the transmit memory |
| Driver.Board.Peek | Base_on_linux-2.6.22.6_S3C2440/dm9000c/dm9dev9000c_100ask.c:1188-1192 | returns the ready byte at the read pointer and the pointer itself, and moves nothing |
| Driver.Board.Rewind | Base_on_linux-2.6.22.6_S3C2440/dm9000c/dm9dev9000c_100ask.c:1288-1296 | puts the read pointer back to the address saved before the header |
| Driver.Board.ReadFrame | Base_on_linux-2.6.22.6_S3C2440/dm9000c/dm9dev9000c_100ask.c:1299-1321 | in each bus width the accesses yield exactly the bytes the ring holds from the read pointer on, wrapping, store them one behind the other in the buffer and nowhere else, and advance the pointer by that much |
| Driver.Board.SkipFrame | Base_on_linux-2.6.22.6_S3C2440/dm9000c/dm9dev9000c_100ask.c:1265-1286 | dropping advances the read pointer by as many bytes as copying does |
| Driver.Board.ReadHeader | Base_on_linux-2.6.22.6_S3C2440/dm9000c/dm9dev9000c_100ask.c:1218-1240 | byte, word and dword reads all give the status at offset 1 and the little-endian length at offsets 2 and 3, and consume 4 bytes |
| Driver.Board.CopyPayload | Base_on_linux-2.6.22.6_S3C2440/dm9000c/dm9dev9000c_100ask.c:1299-1331 | the first length - 4 bytes of the payload are kept in every bus width; the copy stays inside the length + 2 bytes behind the reserve, but in dword mode with length % 4 = 1 it writes the ring's last padding byte one place beyond them, and nothing further |
| Sessions.OverrunReceivable | Base_on_linux-2.6.22.6_S3C2440/dm9000c/dm9dev9000c_100ask.c:1288-1321 | a 32-bit ring can hold a good packet for which that happens: 65 bytes long, with any payload |
| Driver.Board.Drop | Base_on_linux-2.6.22.6_S3C2440/dm9000c/dm9dev9000c_100ask.c:1243-1286 | an erroneous packet is read to its end and counted under each of its error bits |
| Driver.Board.Deliver | Base_on_linux-2.6.22.6_S3C2440/dm9000c/dm9dev9000c_100ask.c:1288-1340 | a good packet's frame is passed up once and counted, and the pointer ends behind the packet |
| Driver.Board.TakePacket | Base_on_linux-2.6.22.6_S3C2440/dm9000c/dm9dev9000c_100ask.c:1215-1360 | drops, delivers or, without a buffer, leaves the packet and the whole abstract state as they were; dropped exactly if one of the bits 01h, 02h, 04h, 08h, 10h, 20h, 80h of the status byte behind the ready byte is set |
| RxRing.GoodBits | Base_on_linux-2.6.22.6_S3C2440/dm9000c/dm9dev9000c_100ask.c:1243-1245 | the packets kept are those without any of these seven bits |
| RxRing.MulticastBit | Base_on_linux-2.6.22.6_S3C2440/dm9000c/dm9dev9000c_100ask.c:1243-1245 | the multicast bit 40h makes no difference |
| ReceiveProperties.TakeReadsMemory | Base_on_linux-2.6.22.6_S3C2440/dm9000c/dm9dev9000c_100ask.c:1215-1340 | in terms of ring memory: status, length and payload are the bytes at the read pointer; without an error bit the payload less 4 bytes is delivered byte for byte and packet and length counted, otherwise fifo, CRC and length errors by their bits; the pointer moves past the padded payload |
| Driver.Board.ReceiveLoop | Base_on_linux-2.6.22.6_S3C2440/dm9000c/dm9dev9000c_100ask.c:1184-1367 | the loop on ring memory computes the same final state and the same reason for ending as the loop on the list of packets, whatever arrives meanwhile |
| Driver.Board.PacketReceive | Base_on_linux-2.6.22.6_S3C2440/dm9000c/dm9dev9000c_100ask.c:1169-1370 | refines the abstract receive call: reset on a bad ready byte, transmit acknowledgement at the quota |
| Sessions.ReceiveRing | Base_on_linux-2.6.22.6_S3C2440/dm9000c/dm9dev9000c_100ask.c:1184-1367 | for any packet list in the wrapping ring ended by a 0 ready byte, one call delivers exactly the good packets' frames in order and leaves the pointer just behind the last packet |
| Sessions.QuotaOutOfReach | Base_on_linux-2.6.22.6_S3C2440/dm9000c/dm9dev9000c_100ask.c:1360-1364 | no list that fits the ring reaches the receive quota |
| ReceiveProperties.DrainInvertsEncoding | Base_on_linux-2.6.22.6_S3C2440/dm9000c/dm9dev9000c_100ask.c:1184-1367 | on the abstract ring the loop delivers all good packets in order and advances by the length of the encoding |
| ReceiveProperties.DrainEnds | Base_on_linux-2.6.22.6_S3C2440/dm9000c/dm9dev9000c_100ask.c:1205-1213 | the loop ends drained, corrupt, without memory or at the quota, each visible in the state; it stops early only for want of memory or with the 0xFFFF-th good packet |
| ReceiveProperties.NoMemoryChangesNothing | Base_on_linux-2.6.22.6_S3C2440/dm9000c/dm9dev9000c_100ask.c:1288-1296 | a failed allocation changes nothing at all |
| ReceiveProperties.DrainKeeps | Base_on_linux-2.6.22.6_S3C2440/dm9000c/dm9dev9000c_100ask.c:1184-1367 | the loop keeps exactly-once delivery and the packet accounting under any arrivals and allocation failures |
| ReceiveProperties.DeliveredIsPrefix | Base_on_linux-2.6.22.6_S3C2440/dm9000c/dm9dev9000c_100ask.c:1288-1340 | what was delivered is a prefix of the good packets stored, the rest still waiting |
| Driver.Board.Admit | Base_on_linux-2.6.22.6_S3C2440/dm9000c/dm9dev9000c_100ask.c:767-788 | refuses exactly at the limit (1 for a chip other than 0x1A at speed 10, otherwise 2); otherwise counts the frame and stops the queue when the limit is reached |
| Driver.Board.OutChunk | Base_on_linux-2.6.22.6_S3C2440/dm9000c/dm9dev9000c_100ask.c:801-820 | one access of any width appends its bytes at the wrapping write pointer and leaves the receive ring intact |
| Driver.Board.WriteFrame | Base_on_linux-2.6.22.6_S3C2440/dm9000c/dm9dev9000c_100ask.c:803-820 | the data loop with interrupts between its accesses refines the abstract one; the index is at the memory write command to the end |
| Driver.Board.SetLength | Base_on_linux-2.6.22.6_S3C2440/dm9000c/dm9dev9000c_100ask.c:796-798 | the length registers get the low 16 bits of the length one by one, interrupts in between; without a reset they hold them |
| Driver.Board.Transmit | Base_on_linux-2.6.22.6_S3C2440/dm9000c/dm9dev9000c_100ask.c:791-856 | all port accesses of a frame, interrupts in between, refine the abstract transmission, which records what the transmit command finds in memory and in the length registers |
| Driver.Board.StartXmit | Base_on_linux-2.6.22.6_S3C2440/dm9000c/dm9dev9000c_100ask.c:754-859 | refines the abstract transmit event, transmit command included; returns 1 exactly when the counter is at the limit |
| Sessions.SendFrame | Base_on_linux-2.6.22.6_S3C2440/dm9000c/dm9dev9000c_100ask.c:796-824 | a frame is refused exactly at 1 in flight (speed 10, not revision 1Ah) or 2, without any effect; one that is taken is counted and followed by exactly one transmit command, which finds the frame from the old write pointer and its length unless a handler reset the chip before it; without a reset the ring holds the frame, the pointer has advanced by the padded length and FCh/FDh hold the length at the end too |
| TransmitProperties.XmitPutsFrame | Base_on_linux-2.6.22.6_S3C2440/dm9000c/dm9dev9000c_100ask.c:801-820 | in every bus width, under every reset-free interruption, memory changes exactly by the frame and less than one access of padding |
| TransmitProperties.TransmitContiguous | Base_on_linux-2.6.22.6_S3C2440/dm9000c/dm9dev9000c_100ask.c:791-856 | without a reset the frame's bytes land one behind the other however many handlers run between the accesses |
| TransmitProperties.QuietXmit | Base_on_linux-2.6.22.6_S3C2440/dm9000c/dm9dev9000c_100ask.c:754-859 | without interrupts the call is one atomic step, stated in closed form field by field, the command and what it finds included |
| TransmitProperties.QuietPrepared | Base_on_linux-2.6.22.6_S3C2440/dm9000c/dm9dev9000c_100ask.c:791-801 | before the data, interrupts are masked and the length registers hold the length |
| TransmitProperties.TransmitStarts | Base_on_linux-2.6.22.6_S3C2440/dm9000c/dm9dev9000c_100ask.c:796-824 | under any interruption the transmit command comes after length and data: when it is given, the chip finds the frame in its memory and its length in FCh/FDh, unless a handler reset the chip before it |
| DriverTheorems.StartedOnItsFrame | Base_on_linux-2.6.22.6_S3C2440/dm9000c/dm9dev9000c_100ask.c:754-859 | over every run the j-th frame taken has the command that follows j others, and that command finds it and its length unless the chip was reset between; tx_packets and tx_bytes count the frames and their lengths |
| TransmitProperties.IrqCompletes | Base_on_linux-2.6.22.6_S3C2440/dm9000c/dm9dev9000c_100ask.c:940-1009 | a handler never raises the counter, and while frames are left it moves neither the write pointer nor the ring, even if it resets |
| TransmitProperties.RunFlies | Base_on_linux-2.6.22.6_S3C2440/dm9000c/dm9dev9000c_100ask.c:754-925 | in every reachable state with frames of at most 1536 bytes the last tx_pkt_cnt frames are intact, back to back, ending at the write pointer |
| TransmitProperties.InFlightDisjoint | Base_on_linux-2.6.22.6_S3C2440/dm9000c/dm9dev9000c_100ask.c:767-820 | two frames in flight share no address of the wrapping ring |
| DriverTheorems.OneStartPerFrame | Base_on_linux-2.6.22.6_S3C2440/dm9000c/dm9dev9000c_100ask.c:754-859 | over every run the transmitter is started once for each frame taken and by nothing else |
| Driver.Board.Interrupt | Base_on_linux-2.6.22.6_S3C2440/dm9000c/dm9dev9000c_100ask.c:940-1009 | refines the abstract handler and leaves the index port as it found it; without a reset the length registers too |
| DriverTheorems.HandlerReceives | Base_on_linux-2.6.22.6_S3C2440/dm9000c/dm9dev9000c_100ask.c:956-987 | for every handler, whatever status bits come together: bit 01h set means the packets taken, delivered and counted are those of the receive loop on the waiting ring, with a reset exactly if it finds the ring corrupt; clear, reception is untouched |
| DriverTheorems.HandlerCompletes | Base_on_linux-2.6.22.6_S3C2440/dm9000c/dm9dev9000c_100ask.c:963-990 | for every handler: the counter is 0 after a corrupt ready byte, otherwise less what the NSR reads report by bits 04h and 08h; bits 02h and 20h, the quota and a reset each leave the queue running, and without them counter, record and queue are unchanged |
| DriverTheorems.HandlerEnds | Base_on_linux-2.6.22.6_S3C2440/dm9000c/dm9dev9000c_100ask.c:963-1000 | for every handler: IMR ends as A2h with the quota used up and A3h otherwise, and the speed is what 500 second reads or, after a reset, 1000 reads of the link make it |
| Sessions.ServeInterrupt | Base_on_linux-2.6.22.6_S3C2440/dm9000c/dm9dev9000c_100ask.c:940-1009 | the same on the fields of the board |
| Driver.Board.Preempt | Base_on_linux-2.6.22.6_S3C2440/dm9000c/dm9dev9000c_100ask.c:940-1009 | the same for any number of handlers running between two port accesses |
| Driver.Board.Acknowledge | Base_on_linux-2.6.22.6_S3C2440/dm9000c/dm9dev9000c_100ask.c:956-960 | masks interrupts, reads the status and clears all of it by writing it back |
| Driver.Board.Unmask | Base_on_linux-2.6.22.6_S3C2440/dm9000c/dm9dev9000c_100ask.c:992-1000 | enables all interrupts, or all but reception when the quota is used up |
| Driver.Board.LinkChange | Base_on_linux-2.6.22.6_S3C2440/dm9000c/dm9dev9000c_100ask.c:963-983 | the link answers decide the speed; mailbox registers apart, no register changes |
| Driver.Board.LinkAfterInterrupt | Base_on_linux-2.6.22.6_S3C2440/dm9000c/dm9dev9000c_100ask.c:966-980 | the speed follows the PHY's control register exactly when one of 500 second reads shows the link, and is kept otherwise |
| Driver.Board.Reset | Base_on_linux-2.6.22.6_S3C2440/dm9000c/dm9dev9000c_100ask.c:1114-1143 | refines the abstract reset and leaves the index port as it found it: one more reset counted, no frame in flight, the ring empty, both pointers rewound, interrupts on, the queue running, the speed as the link answers decide |
| Driver.Board.LinkAfterReset | Base_on_linux-2.6.22.6_S3C2440/dm9000c/dm9dev9000c_100ask.c:1125-1136 | the speed follows the PHY's control register exactly when one of 1000 reads shows the link, and is 10 otherwise |
| Driver.Board.CountDone | Base_on_linux-2.6.22.6_S3C2440/dm9000c/dm9dev9000c_100ask.c:905-920 | NSR's completion bits lower the counter by their number; without them, or below zero, the transmitter is polled until a poll sees it idle and only then the counter is zeroed: polls and counter values are on record exactly |
| Driver.Board.TxDone | Base_on_linux-2.6.22.6_S3C2440/dm9000c/dm9dev9000c_100ask.c:897-925 | NSR is read, the counter settled as above, with the same record, and the queue always restarted |
| Driver.Board.WaitTcr | Base_on_linux-2.6.22.6_S3C2440/dm9000c/dm9dev9000c_100ask.c:914 | polls exactly as long as the answers say busy, and once more |
| DriverTheorems.CounterFallsJustified | Base_on_linux-2.6.22.6_S3C2440/dm9000c/dm9dev9000c_100ask.c:905-920 | in every reachable state, for every value the counter was ever given, also between two port accesses: where it fell, NSR had just reported as many frames done, or it was zeroed and the last event was an idle poll or a chip reset, with no transmission started since |
| RunProperties.TxDoneRecord | Base_on_linux-2.6.22.6_S3C2440/dm9000c/dm9dev9000c_100ask.c:897-925 | the acknowledgement keeps the record lawful whatever NSR and TCR answer |
| RunProperties.WatchdogRecord | Base_on_linux-2.6.22.6_S3C2440/dm9000c/dm9dev9000c_100ask.c:1093-1110 | so does the watchdog, whether it zeroes the counter or resets the chip |
| Driver.Board.constructor | Base_on_linux-2.6.22.6_S3C2440/dm9000c/dm9dev9000c_100ask.c:412-417 | a board as probing leaves it: every counter, flag and statistic cleared, the revision read from the chip |
| Driver.Board.ResetChip | Base_on_linux-2.6.22.6_S3C2440/dm9000c/dm9dev9000c_100ask.c:678-686 | the chip is reset, the ring is empty and the bus width is read back from ISR |
| Driver.Board.StartChip | Base_on_linux-2.6.22.6_S3C2440/dm9000c/dm9dev9000c_100ask.c:692-741 | the registers are programmed, the filter is exact unless promiscuous, interrupts are on, and RXCR is 0x31 whatever the filter did to it |
| Driver.Board.InitDm9000 | Base_on_linux-2.6.22.6_S3C2440/dm9000c/dm9dev9000c_100ask.c:671-748 | the rings are empty, the counter is zero, interrupts are on, the memory pointers wrap, and the operating registers hold the values programmed |
| Driver.Board.LinkAtOpen | Base_on_linux-2.6.22.6_S3C2440/dm9000c/dm9dev9000c_100ask.c:511-528 | the first of 3000 polls of NSR that shows the link decides the speed from the next read; otherwise 10 |
| Driver.Board.Open | Base_on_linux-2.6.22.6_S3C2440/dm9000c/dm9dev9000c_100ask.c:484-540 | fails without effect when the interrupt line is refused; otherwise brings the interface up with the multicast filter exact |
| DriverTheorems.OpenServes | Base_on_linux-2.6.22.6_S3C2440/dm9000c/dm9dev9000c_100ask.c:484-540 | an opened interface is empty, counts from zero, has interrupts, timer and queue on, and its speed is 100 exactly if the read after the first of 3000 NSR polls with bit 40h has bit 80h clear |
| Driver.Board.Stop | Base_on_linux-2.6.22.6_S3C2440/dm9000c/dm9dev9000c_100ask.c:865-895 | the interface is down, its timer off, interrupts masked, reception disabled and the PHY told to reset |
| Driver.Board.TransmitterIdle | Base_on_linux-2.6.22.6_S3C2440/dm9000c/dm9dev9000c_100ask.c:1093-1102 | true exactly when one of the first 99 polls sees the transmitter idle |
| Driver.Board.Timeout | Base_on_linux-2.6.22.6_S3C2440/dm9000c/dm9dev9000c_100ask.c:1078-1112 | the chip is reset exactly when the first 99 polls all see the transmitter busy; either way the counter is zero and the queue runs, and what was polled is on record |
| DriverTheorems.WatchdogServes | Base_on_linux-2.6.22.6_S3C2440/dm9000c/dm9dev9000c_100ask.c:1078-1112 | the watchdog counts itself and a transmit error; the chip is reset exactly when the first 99 polls are all busy, otherwise reception, ring and speed are untouched; either way the counter is 0 and the queue runs |
| Driver.Board.Timer | Base_on_linux-2.6.22.6_S3C2440/dm9000c/dm9dev9000c_100ask.c:1147-1163 | refines the abstract timer event: re-arms itself, and exactly with the quota used up clears the receive counter and writes A3h to IMR |
| Driver.Board.PhyRead | Base_on_linux-2.6.22.6_S3C2440/dm9000c/dm9dev9000c_100ask.c:1488-1500 | through the mailbox, the value of the PHY register; other registers are untouched |
| Driver.Board.PhyWrite | Base_on_linux-2.6.22.6_S3C2440/dm9000c/dm9dev9000c_100ask.c:1505-1517 | through the mailbox, exactly that PHY register changes |
| Driver.Board.Ior | Base_on_linux-2.6.22.6_S3C2440/dm9000c/dm9dev9000c_100ask.c:1470-1474 | the value shown by the register selected, leaving the index there |
| Driver.Board.Iow | Base_on_linux-2.6.22.6_S3C2440/dm9000c/dm9dev9000c_100ask.c:1479-1483 | the write reaches the register selected, leaving the index there |
| Driver.Board.Run | Base_on_linux-2.6.22.6_S3C2440/dm9000c/dm9dev9000c_100ask.c:484-1163 | events on the board are a run of the abstract machine that passes over exactly those that cannot happen, and the device then wants what the last filter update said |
| RunProperties.IrqKeeps | Base_on_linux-2.6.22.6_S3C2440/dm9000c/dm9dev9000c_100ask.c:940-1009 | the handler keeps delivery, accounting, counter range, timer and queue flag, and leaves reception masked only with the quota used up |
| RunProperties.XmitKeeps | Base_on_linux-2.6.22.6_S3C2440/dm9000c/dm9dev9000c_100ask.c:754-859 | so does a transmit call with handlers running between its port accesses |
| RunProperties.StepKeeps | Base_on_linux-2.6.22.6_S3C2440/dm9000c/dm9dev9000c_100ask.c:754-1163 | so does every event |
| RunProperties.RunKeeps | Base_on_linux-2.6.22.6_S3C2440/dm9000c/dm9dev9000c_100ask.c:484-1163 | so does every run |
| DriverTheorems.DeliveryExactlyOnce | Base_on_linux-2.6.22.6_S3C2440/dm9000c/dm9dev9000c_100ask.c:1169-1370 | in every reachable state packets consumed and waiting are together the packets stored, the frames delivered are those of the good ones consumed, and rx_packets, rx_bytes and the error counters account for every packet consumed |
| DriverTheorems.NothingForgotten | Base_on_linux-2.6.22.6_S3C2440/dm9000c/dm9dev9000c_100ask.c:1188-1296 | over any run of an open interface deliveries only grow, and without a reset so does the list of stored packets |
| DriverTheorems.NoLostWakeup | Base_on_linux-2.6.22.6_S3C2440/dm9000c/dm9dev9000c_100ask.c:767-925 | while open, 0 <= tx_pkt_cnt <= 2 and a stopped queue means the counter is exactly at the limit |
| DriverTheorems.QueueFlagExact | Base_on_linux-2.6.22.6_S3C2440/dm9000c/dm9dev9000c_100ask.c:767-788 | in every reachable open state the queue flag tells whether a frame is taken if and only if no link change has left the counter at the limit, or a handler, the watchdog or a reset has left it below since; otherwise the queue runs and every frame is refused |
| DriverTheorems.LinkFreeRun | Base_on_linux-2.6.22.6_S3C2440/dm9000c/dm9dev9000c_100ask.c:767-788 | that is so in every run without link changes |
| DriverTheorems.MaskedReceiveRecovers | Base_on_linux-2.6.22.6_S3C2440/dm9000c/dm9dev9000c_100ask.c:992-1000 | at every event boundary while open IMR is 0xA3, or 0xA2 with the counter at 0xFFFF, and the next tick unmasks reception and re-arms itself |
| DriverTheorems.UnacknowledgedFramesIntact | Base_on_linux-2.6.22.6_S3C2440/dm9000c/dm9dev9000c_100ask.c:767-820 | with frames of at most 1536 bytes each of the last tx_pkt_cnt frames is in the ring byte for byte and no two share an address |
| DriverTheorems.WatchdogPollsTooOften | Base_on_linux-2.6.22.6_S3C2440/dm9000c/dm9dev9000c_100ask.c:1093-1110 | the hundredth poll and later ones change nothing |
| DriverTheorems.LinkChangeQueue | Base_on_linux-2.6.22.6_S3C2440/dm9000c/dm9dev9000c_100ask.c:963-989 | after any handler that serves a link change, whatever else it serves, the queue runs, and the flag is right if and only if a corrupt ready byte made it reset the chip or the frames left by its NSR reads are below the limit of the new speed |
| DriverTheorems.LinkChangeRefuses | Base_on_linux-2.6.22.6_S3C2440/dm9000c/dm9dev9000c_100ask.c:963-983 | a run of 60-byte frames that ends with the queue running and the counter at the limit |
| Sessions.Session | Base_on_linux-2.6.22.6_S3C2440/dm9000c/dm9dev9000c_100ask.c:484-1163 | any events from probing on leave a board whose own fields satisfy the theorems above: delivery, accounting, the record of the counter against what the chip saw, queue flag, interrupt mask, one transmit command per frame that finds the frame, and filter registers exact for the multicast list handed down last, whatever list came before and whatever was reset since |
| MulticastFilter.CalCrcIsStandard | Base_on_linux-2.6.22.6_S3C2440/dm9000c/dm9dev9000c_100ask.c:1445-1453 | the CRC register, bit-reversed, is the remainder of section 3.2.9 of IEEE 802.3 (before the final complement) for every message |
| MulticastFilter.HashIsStandard | Base_on_linux-2.6.22.6_S3C2440/dm9000c/dm9dev9000c_100ask.c:1421-1429 | bit i of the hash is coefficient 31 - i of that remainder |
| MulticastFilter.MarkTable | Base_on_linux-2.6.22.6_S3C2440/dm9000c/dm9dev9000c_100ask.c:1425-1429 | marking an address's bit in the 16-bit table keeps the table exact for the list with the address added |
| MulticastFilter.SplitTable | Base_on_linux-2.6.22.6_S3C2440/dm9000c/dm9dev9000c_100ask.c:1431-1437 | the low/high byte split turns an exact table into an exact eight-register filter |
| Driver.Board.BuildTable | Base_on_linux-2.6.22.6_S3C2440/dm9000c/dm9dev9000c_100ask.c:1421-1429 | for up to 65535 addresses, bit h is set exactly when h = 63 or a listed address hashes to h |
| Driver.Board.WriteTable | Base_on_linux-2.6.22.6_S3C2440/dm9000c/dm9dev9000c_100ask.c:1431-1437 | registers 16h to 1Dh hold the exact filter and no other register changes |
| Driver.Board.HashTable | Base_on_linux-2.6.22.6_S3C2440/dm9000c/dm9dev9000c_100ask.c:1387-1438 | promiscuous: one RXCR bit and nothing else; otherwise both RXCR bits, the address and the exact filter, nothing else |
| Driver.Board.Relist | Base_on_linux-2.6.22.6_S3C2440/dm9000c/dm9dev9000c_100ask.c:1387-1438 | whatever flags and list the stack hands over, the registers are then those `HashTable` promises for the new ones, and nothing else changes in the abstract state |
| Driver.Board.SetMulticastList | Base_on_linux-2.6.22.6_S3C2440/dm9000c/dm9dev9000c_100ask.c:435 | the filter becomes exact, and nothing else changes in the abstract state |
| PointerPredictions.TxPredictionExact | Base_on_linux-2.6.22.6_S3C2440/dm9000c/dm9dev9000c_100ask.c:830-846 | the prediction equals stepping the write pointer access by access if and only if the frame ends before the ring's second turn is over, as every frame that fits the ring does |
| PointerPredictions.RxPredictionExact | Base_on_linux-2.6.22.6_S3C2440/dm9000c/dm9dev9000c_100ask.c:1336-1358 | the same for the read pointer, header included |
| PointerPredictions.RxStepsAdd | Base_on_linux-2.6.22.6_S3C2440/dm9000c/dm9dev9000c_100ask.c:1268-1284 | stepping the read pointer over n accesses, wrapping, is adding their bytes round the ring |
| PointerPredictions.TxStepsAdd | Base_on_linux-2.6.22.6_S3C2440/dm9000c/dm9dev9000c_100ask.c:803-820 | the same for the write pointer |
| Seeks.GenericSeek | Base_on_linux-2.6.22.6_S3C2440/app_system_call/kernel/read_write.c:33-56 | lands on the unwrapped target when it lies in [0, s_maxbytes] and fails otherwise, although the sum is computed in 64 bits |
| Seeks.DefaultSeek | Base_on_linux-2.6.22.6_S3C2440/app_system_call/kernel/read_write.c:91-113 | the same without the upper bound of the file system |
| Seeks.Truncated | Base_on_linux-2.6.22.6_S3C2440/app_system_call/kernel/read_write.c:142-147 | the result when it fits 32 bits, EOVERFLOW otherwise |
| OpenFiles.LseekFailsMoved | Base_on_linux-2.6.22.6_S3C2440/app_system_call/kernel/read_write.c:130-151 | a failed lseek has moved the file if and only if the target is acceptable to the seek in use (generic or default), elsewhere, and at least 2^31; then it returns EOVERFLOW and the file is at the target |
| OpenFiles.LseekFailsMovedAt | Base_on_linux-2.6.22.6_S3C2440/app_system_call/kernel/read_write.c:130-151 | an input: one byte forward from 2^31 - 1 |
| OpenFiles.LseekLands | Base_on_linux-2.6.22.6_S3C2440/app_system_call/kernel/read_write.c:33-147 | lseek goes to the offset (origin 0), the position plus the offset (1) or the file size plus the offset (2) when that lies in [0, s_maxbytes], or in loff_t without a seek of its own, and otherwise changes nothing; the result is the target, EOVERFLOW from 2^31 on, ESPIPE, or EINVAL |
| OpenFiles.LlseekLands | Base_on_linux-2.6.22.6_S3C2440/app_system_call/kernel/read_write.c:154-185 | the same for the 64-bit call, whose offset is 2^32 times the signed high half plus the low half |
| Seeks.ComposeHalves | Base_on_linux-2.6.22.6_S3C2440/app_system_call/kernel/read_write.c:172-173 | every 64-bit offset is recomposed from its two halves |
| Seeks.ComposeValue | Base_on_linux-2.6.22.6_S3C2440/app_system_call/kernel/read_write.c:172-173 | that offset is 2^32 times the signed high half plus the low half |
| Seeks.ComposeInjective | Base_on_linux-2.6.22.6_S3C2440/app_system_call/kernel/read_write.c:172-173 | and the halves are recovered from the offset, so nothing else composes it |
| OpenFiles.VerifyArea | Base_on_linux-2.6.22.6_S3C2440/app_system_call/kernel/read_write.c:195-218 | accepts exactly counts below 2^31 at positions whose end fits loff_t and that no lock refuses, and then allows min(count, MAX_RW_COUNT) |
| OpenFiles.SetPosition | Base_on_linux-2.6.22.6_S3C2440/app_system_call/kernel/read_write.c:48-54 | moves to an acceptable target, resetting the version only if that is elsewhere; otherwise nothing changes |
| OpenFiles.VfsLlseek | Base_on_linux-2.6.22.6_S3C2440/app_system_call/kernel/read_write.c:116-127 | returns the seek's result and moves the file there exactly when it is not negative |
| OpenFiles.SysLseek | Base_on_linux-2.6.22.6_S3C2440/app_system_call/kernel/read_write.c:130-151 | truncates the result but moves the file by the whole of it; a bad descriptor or origin changes nothing |
| OpenFiles.SysLlseek | Base_on_linux-2.6.22.6_S3C2440/app_system_call/kernel/read_write.c:154-185 | seeks to the offset recomposed from both halves; the file moves even when the result cannot be copied out |
| OpenFiles.VfsRead | Base_on_linux-2.6.22.6_S3C2440/app_system_call/kernel/read_write.c:255-284 | the operation is called exactly when mode, operations, access, area and permission allow it, for min(count, MAX_RW_COUNT) bytes, otherwise the first failing check decides the error; the result is what the operation answers, cut to what the file holds; memory changes by exactly the bytes of the file at the position; a failure changes nothing |
| OpenFiles.VfsWrite | Base_on_linux-2.6.22.6_S3C2440/app_system_call/kernel/read_write.c:313-342 | the same in the other direction: the file changes by exactly the bytes written |
| OpenFiles.Refused | Base_on_linux-2.6.22.6_S3C2440/app_system_call/kernel/read_write.c:255-284 | checked in order and in wrapping arithmetic, no check fails exactly when the range is below 2^31 bytes and ends inside loff_t, and mode, operation, access, locks and permission allow it |
| OpenFiles.SysRead | Base_on_linux-2.6.22.6_S3C2440/app_system_call/kernel/read_write.c:356-371 | the operation is asked as for vfs_read at the file's position, which advances by what was read and stays on failure |
| OpenFiles.SysWrite | Base_on_linux-2.6.22.6_S3C2440/app_system_call/kernel/read_write.c:374-389 | the same for writing |
| OpenFiles.SysPread | Base_on_linux-2.6.22.6_S3C2440/app_system_call/kernel/read_write.c:402-421 | reads at a position of its own; the file's is never moved |
| OpenFiles.SysPwrite | Base_on_linux-2.6.22.6_S3C2440/app_system_call/kernel/read_write.c:423-442 | writes at a position of its own; the file's is never moved |
| OpenFiles.RunCalls | Base_on_linux-2.6.22.6_S3C2440/app_system_call/kernel/read_write.c:130-442 | every call of a run does exactly what is stated of it: a seek lands on the unwrapped target in [0, s_maxbytes] (or loff_t) or leaves everything, also where its result is EOVERFLOW or EFAULT; reads and writes ask for min(count, MAX_RW_COUNT) exactly when allowed, return what was granted, change exactly those bytes and advance by them; a refused one returns the error of the first check that fails, EINVAL and ESPIPE first for pread and pwrite, which leave the position; it is never negative |
| OpenFiles.AskedExactly | Base_on_linux-2.6.22.6_S3C2440/app_system_call/kernel/read_write.c:255-442 | read, write, pread and pwrite reach the operation exactly when mode, operation, range, buffer, locks and permission allow it, and otherwise return the first failing check's error number and change nothing |
| OpenFiles.PositionCountsBytes | Base_on_linux-2.6.22.6_S3C2440/app_system_call/kernel/read_write.c:356-442 | between seeks the position is the old one plus the bytes read and written, whatever pread and pwrite do |
| OpenFiles.ReadsBackWhatItWrote | Base_on_linux-2.6.22.6_S3C2440/app_system_call/kernel/read_write.c:130-389 | a write, a seek back over it and a granted read of as many bytes return the bytes written |
| Iovecs.IovShorten | Base_on_linux-2.6.22.6_S3C2440/app_system_call/kernel/read_write.c:447-462 | the segments returned are those of the wrapping recursive definition, cut in place at the last one; later segments and all earlier ones are untouched |
| Iovecs.ShortenExact | Base_on_linux-2.6.22.6_S3C2440/app_system_call/kernel/read_write.c:447-462 | they describe exactly the first min(to, total) bytes if and only if no segment that begins before `to` ends beyond size_t; short vectors come back whole |
| Iovecs.ShortenCanFail | Base_on_linux-2.6.22.6_S3C2440/app_system_call/kernel/read_write.c:447-462 | a vector whose running sum wraps comes back whole although 4 bytes were asked for |
| Iovecs.CheckedVectorShortens | Base_on_linux-2.6.22.6_S3C2440/app_system_call/kernel/read_write.c:447-462 | vectors that passed the check are always shortened exactly |
| Iovecs.CheckVector | Base_on_linux-2.6.22.6_S3C2440/app_system_call/kernel/read_write.c:568-585 | in wrapping arithmetic: the true sum if every length, every prefix sum and every range is good, else the error of the first bad segment |
| Iovecs.CheckedOnce | Base_on_linux-2.6.22.6_S3C2440/app_system_call/kernel/read_write.c:568-585 | that specification leaves exactly one outcome |
| VectoredIo.OverlayTwice | Base_on_linux-2.6.22.6_S3C2440/app_system_call/kernel/read_write.c:489-518 | two writes one behind the other are one write of both |
| VectoredIo.TransferSegment | Base_on_linux-2.6.22.6_S3C2440/app_system_call/kernel/read_write.c:500-515 | one call returns its error, or what was offered cut to the segment and, for a read, to the file; it extends the transfer made so far by that much, or fails without effect |
| VectoredIo.DoLoopReadvWritev | Base_on_linux-2.6.22.6_S3C2440/app_system_call/kernel/read_write.c:489-518 | the operation is called segment by segment as long as each is transferred whole, each result being what the operation answers there; the calls together are one transfer of ret bytes between the file at the old position and the concatenated segments; ret is the whole total when every answer covers its segment; on an error nothing was transferred |
| VectoredIo.CallsOnce | Base_on_linux-2.6.22.6_S3C2440/app_system_call/kernel/read_write.c:489-518 | the answers determine how many calls are made and what each returns |
| VectoredIo.OutcomeSums | Base_on_linux-2.6.22.6_S3C2440/app_system_call/kernel/read_write.c:489-518 | the result is the sum of what the calls returned, without the last where that is an error, and the error itself exactly when nothing was transferred before it |
| ReadvWritev.CopyCheckUvector | Base_on_linux-2.6.22.6_S3C2440/app_system_call/kernel/read_write.c:523-589 | allocates exactly for 9 to 1024 segments, and returns 0, EINVAL, ENOMEM, EFAULT or the outcome of the check in that order |
| ReadvWritev.Slab.Kfree | Base_on_linux-2.6.22.6_S3C2440/app_system_call/kernel/read_write.c:635-637 | only live memory can be freed, so no vector is freed twice |
| ReadvWritev.CheckedTransfer | Base_on_linux-2.6.22.6_S3C2440/app_system_call/kernel/read_write.c:591-634 | the loop runs exactly when the vector is good, its total positive, the area acceptable and permission given; otherwise the first failing check decides the result; every way out leaves at most the one vector allocated |
| ReadvWritev.DoReadvWritev | Base_on_linux-2.6.22.6_S3C2440/app_system_call/kernel/read_write.c:591-645 | the same outcome, ret the whole total when every answer covers its segment; a positive result is one transfer of that many bytes at the position, which advances by it; whatever was allocated is freed once on every path |
| Sendfile.References.Put | Base_on_linux-2.6.22.6_S3C2440/app_system_call/kernel/read_write.c:802-807 | only a file that is held can be released |
| Sendfile.Send | Base_on_linux-2.6.22.6_S3C2440/app_system_call/kernel/read_write.c:776-800 | a negative position, or a range that ends beyond the limit and begins at or past it, ends the call before the operation; otherwise it is asked for no more than the limit allows, no sum overflows, and the final size check cannot trigger |
| Sendfile.SendTo | Base_on_linux-2.6.22.6_S3C2440/app_system_call/kernel/read_write.c:757-800 | the operation is asked exactly when the out file's checks pass and the range can be cut to the limit, for the count so cut; without a limit of the caller the range then ends inside both files' s_maxbytes; otherwise the first failing check decides the error |
| Sendfile.SendFrom | Base_on_linux-2.6.22.6_S3C2440/app_system_call/kernel/read_write.c:727-804 | the same with the in file's checks first; whatever path is taken the out file is released exactly if it was acquired |
| Sendfile.DoSendfile | Base_on_linux-2.6.22.6_S3C2440/app_system_call/kernel/read_write.c:715-808 | the operation is called exactly when both files pass their checks and the position is below the bound or the range inside it; it is asked for min(count, MAX_RW_COUNT) bytes, cut only to end exactly at max or, with max = 0, at the smaller s_maxbytes of the two files; a range refused for a bound gets EOVERFLOW; otherwise the first failing check decides the error; every file acquired is released exactly once; the position advances by the result |

## Left out

- Probing (beyond the cleared board it leaves), module init and exit, ioctl, ethtool and MII calls, `set_PHY_mode`, `read_srom_word`: register sequences and kernel plumbing without a property of their own.
- Delays, printk, carrier state, time stamps and the freeing of socket buffers.
- The builds with CHECKSUM, ETRANS, FLOW_CONTROL or DM8606, whose branches are compiled out; of TDBUG and RDBG only the pointer arithmetic.
- The vendor's copy of the driver, which repeats the same logic, and the register headers.
- Spinlocks and memory ordering: events are atomic, but for the interrupts inside a transmit call. Interrupts inside the watchdog, the timer, open or the filter update are not modelled.
- Statistics counters are unbounded; the source's are unsigned long.
- Whether tx_pkt_cnt is the chip's true number of frames in flight: the idle wait of `dmfe_tx_done` can leave completion bits for later, so the code does not decide it.
- Promiscuous and all-multicast mode after initialisation, which rewrites RXCR.
- The end of busy-waits on hardware that stays busy for ever.
- The socket buffer as an object and `eth_type_trans`: a delivered packet is its bytes.
- Good packets shorter than 4 bytes, for which `length - 4` wraps: the chip is assumed not to store them. A length above what the ring holds likewise.
- Multicast lists longer than 65535 addresses: the 16-bit loop counter never gets past them.
- VectoredIo.DoLoopReadvWritev: for a read whose segments overlap only where bytes may have changed is stated, not which of two bytes stored at one address stays.
- Frames longer than the transmit ring: `skb->len` is the frame's true length, of any size; a frame longer than the ring overwrites itself in the model, and what then remains is not stated.
- In `do_sendfile`, an in file without an inode.
- The wrappers of the asynchronous operations (`do_sync_read`, `do_sync_write`, `do_sync_readv_writev`) with their retry loops, and the branch of `do_readv_writev` that uses them: they pass one call on.
- `vfs_readv`, `vfs_writev`, `sys_readv`, `sys_writev`, `sys_sendfile`, `sys_sendfile64`, `remote_llseek`, `no_llseek`: they look up a file or copy a position and call what is modelled.
- The clamping of vectored totals: `do_readv_writev` uses the verified area only as an error check.
- File system notification and I/O accounting.
- `sys_hello`, the system call tables, the test clients, the frame buffer test, build files and logs.
