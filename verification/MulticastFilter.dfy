// The 64-bit multicast filter: the hash of an address and the hash table built from a list of them.

module MulticastFilter {
  import opened Bytes
  import opened Bits

  type Address = s: seq<byte> | |s| == 6 witness [0, 0, 0, 0, 0, 0]

  // As many as the 16-bit loop counter gets past.
  type Addresses = s: seq<Address> | |s| <= 0xFFFF

  // ether_crc_le: the reflected CRC-32 register ---------------------------------------------

  const REFLECTED := 0xEDB8_8320
  const ALL_ONES := 0xFFFF_FFFF

  function CrcBit(crc: nat, bit: bool): nat {
    if (crc % 2 == 1) != bit then Xor(crc / 2, REFLECTED) else crc / 2
  }

  function CrcBits(crc: nat, bits: seq<bool>): nat
    decreases |bits|
  {
    if bits == [] then crc else CrcBits(CrcBit(crc, bits[0]), bits[1..])
  }

  // The bits of the bytes in the order they go on the wire: the least significant bit first.
  function WireBits(bytes: seq<byte>): (r: seq<bool>)
    ensures |r| == 8 * |bytes|
  {
    if bytes == [] then [] else seq(8, i requires 0 <= i < 8 => BitAt(bytes[0], i)) + WireBits(bytes[1..])
  }

  function CalCrc(bytes: seq<byte>): nat {
    CrcBits(ALL_ONES, WireBits(bytes))
  }

  function Hash(a: Address): (h: nat)
    ensures h < 64
  {
    CalCrc(a) % 0x40
  }

  // The CRC of section 3.2.9 of IEEE 802.3 ---------------------------------------------------
  //
  // A polynomial is the list of its coefficients, the highest power of x first. G(x) is
  // x^32 + the powers listed here.
  const GENERATOR: set<nat> := {26, 23, 22, 16, 12, 11, 10, 8, 7, 5, 4, 2, 1, 0}

  function Add(a: seq<bool>, b: seq<bool>): (r: seq<bool>)
    requires |a| == |b|
    ensures |r| == |a|
  {
    seq(|a|, i requires 0 <= i < |a| => a[i] != b[i])
  }

  // The coefficients of x^31 ... x^0 of G(x).
  function LowG(): (g: seq<bool>)
    ensures |g| == 32
  {
    seq(32, i requires 0 <= i < 32 => 31 - i in GENERATOR)
  }

  // The remainder of the division by G(x), by long division.
  function Remainder(m: seq<bool>): (r: seq<bool>)
    requires |m| >= 32
    ensures |r| == 32
    decreases |m|
  {
    if |m| == 32 then m
    else if m[0] then Remainder(Add(m[1..33], LowG()) + m[33..])
    else Remainder(m[1..])
  }

  function Zeros(n: nat): (r: seq<bool>)
    ensures |r| == n
  {
    seq(n, _ => false)
  }

  // The first 32 coefficients of m plus those of r.
  function AddHead(r: seq<bool>, m: seq<bool>): (s: seq<bool>)
    requires |r| == 32 <= |m|
    ensures |s| == |m|
  {
    Add(r, m[..32]) + m[32..]
  }

  // R(x): the message times x^32 with its first 32 bits complemented, divided by G(x).
  function StandardRemainder(message: seq<bool>): (r: seq<bool>)
    ensures |r| == 32
  {
    Remainder(AddHead(seq(32, _ => true), message + Zeros(32)))
  }

  // The register shifted one place by long division.
  function DivideBit(r: seq<bool>, bit: bool): (s: seq<bool>)
    requires |r| == 32
    ensures |s| == 32
  {
    var shifted := r[1..] + [false];
    if r[0] != bit then Add(shifted, LowG()) else shifted
  }

  function DivideBits(r: seq<bool>, bits: seq<bool>): (s: seq<bool>)
    requires |r| == 32
    ensures |s| == 32
    decreases |bits|
  {
    if bits == [] then r else DivideBits(DivideBit(r, bits[0]), bits[1..])
  }

  // Shifting the message through the register is the long division.
  lemma {:induction false} RegisterDivides(r: seq<bool>, bits: seq<bool>)
    requires |r| == 32
    ensures DivideBits(r, bits) == Remainder(AddHead(r, bits + Zeros(32)))
    decreases |bits|
  {
    var m := AddHead(r, bits + Zeros(32));
    if bits == [] {
      assert m == r;
    } else {
      var r' := DivideBit(r, bits[0]);
      RegisterDivides(r', bits[1..]);
      var m' := AddHead(r', bits[1..] + Zeros(32));
      var shifted := if m[0] then Add(m[1..33], LowG()) + m[33..] else m[1..];
      assert (bits + Zeros(32))[1..] == bits[1..] + Zeros(32);
      assert (bits + Zeros(32))[0] == bits[0];
      forall i | 0 <= i < |m'|
        ensures m'[i] == shifted[i]
      {
        var message := bits + Zeros(32);
        assert (bits[1..] + Zeros(32))[i] == message[i + 1];
        assert m[i + 1] == if i < 31 then r[i + 1] != message[i + 1] else message[i + 1];
        assert m'[i] == if i < 32 then r'[i] != message[i + 1] else message[i + 1];
        assert m[0] == (r[0] != bits[0]);
      }
      assert m' == shifted;
    }
  }

  // Bit i of the reflected register is the coefficient of x^(31 - i).
  ghost predicate Represents(crc: nat, r: seq<bool>)
    requires |r| == 32
  {
    crc <= ALL_ONES && forall i {:trigger r[i]} :: 0 <= i < 32 ==> BitAt(crc, i) == r[i]
  }

  lemma Pow2Table()
    ensures Pow2(0) == 1 && Pow2(1) == 2 && Pow2(2) == 4 && Pow2(3) == 8
    ensures Pow2(4) == 0x10 && Pow2(5) == 0x20 && Pow2(6) == 0x40 && Pow2(7) == 0x80
    ensures Pow2(8) == 0x100 && Pow2(16) == 0x1_0000 && Pow2(24) == 0x100_0000
    ensures Pow2(32) == 0x1_0000_0000
  {
  }

  // The bytes of the reflected constant, the lowest first.
  function ReflectedByte(k: nat): byte {
    if k == 0 then 0x20 else if k == 1 then 0x83 else if k == 2 then 0xB8 else 0xED
  }

  lemma ReflectedBytes()
    ensures ShiftRight(REFLECTED, 8) == 0xED_B883
    ensures ShiftRight(REFLECTED, 16) == 0xEDB8
    ensures ShiftRight(REFLECTED, 24) == 0xED
  {
    EightBits(REFLECTED);
    EightBits(0xED_B883);
    EightBits(0xEDB8);
    ShiftTwice(REFLECTED, 8, 8);
    ShiftTwice(REFLECTED, 16, 8);
  }

  lemma ReflectedBits(k: nat, n: nat)
    requires k < 4 && n < 8
    ensures BitAt(REFLECTED, n + 8 * k) == BitAt(ReflectedByte(k), n)
  {
    ReflectedBytes();
    var x := if k == 0 then REFLECTED else if k == 1 then 0xED_B883 else if k == 2 then 0xEDB8 else 0xED;
    assert ShiftRight(REFLECTED, 8 * k) == x;
    ShiftBits(REFLECTED, n, 8 * k);
    TruncateBits(x, n, 8);
    EightBits(x);
  }

  // The bits of a byte, one by one.
  lemma BitOfByte(b: byte, n: nat)
    requires n < 8
    ensures BitAt(b, n) == Bit(b, [1, 2, 4, 8, 0x10, 0x20, 0x40, 0x80][n])
  {
    if n > 0 {
      BitOfByte(b / 2, n - 1);
    }
  }

  lemma GeneratorBits(k: nat, n: nat)
    requires k < 4 && n < 8
    ensures BitAt(ReflectedByte(k), n) == (31 - (n + 8 * k) in GENERATOR)
  {
    BitOfByte(ReflectedByte(k), n);
    if k == 0 {
      assert BitAt(0x20, n) == (n == 5);
    } else if k == 1 {
      assert BitAt(0x83, n) == (n in {0, 1, 7});
    } else if k == 2 {
      assert BitAt(0xB8, n) == (n in {3, 4, 5, 7});
    } else {
      assert BitAt(0xED, n) == (n in {0, 2, 3, 5, 6, 7});
    }
  }

  // Both constants list the same powers of x.
  lemma ReflectedGenerator(i: nat)
    requires i < 32
    ensures BitAt(REFLECTED, i) == LowG()[i]
  {
    ReflectedBits(i / 8, i % 8);
    GeneratorBits(i / 8, i % 8);
  }

  lemma RepresentsStep(crc: nat, r: seq<bool>, bit: bool)
    requires |r| == 32 && Represents(crc, r)
    ensures Represents(CrcBit(crc, bit), DivideBit(r, bit))
  {
    Pow2Table();
    var next := DivideBit(r, bit);
    assert BitAt(crc, 0) == r[0];
    forall i | 0 <= i < 32
      ensures BitAt(CrcBit(crc, bit), i) == next[i]
    {
      assert BitAt(crc / 2, i) == BitAt(crc, i + 1);
      if i == 31 {
        SmallBits(crc, 32);
      } else {
        assert BitAt(crc, i + 1) == r[i + 1];
      }
      XorBits(crc / 2, REFLECTED, i);
      ReflectedGenerator(i);
    }
    XorBound(crc / 2, REFLECTED, 32);
  }

  lemma {:induction false} RepresentsSteps(crc: nat, r: seq<bool>, bits: seq<bool>)
    requires |r| == 32 && Represents(crc, r)
    ensures Represents(CrcBits(crc, bits), DivideBits(r, bits))
    decreases |bits|
  {
    if bits != [] {
      RepresentsStep(crc, r, bits[0]);
      RepresentsSteps(CrcBit(crc, bits[0]), DivideBit(r, bits[0]), bits[1..]);
    }
  }

  // The register the kernel computes is the remainder R(x) of the standard, its bit i being the
  // coefficient of x^(31 - i): the hash is the six highest coefficients.
  lemma CalCrcIsStandard(bytes: seq<byte>)
    ensures Represents(CalCrc(bytes), StandardRemainder(WireBits(bytes)))
  {
    var ones := seq(32, _ => true);
    AllOnesRepresents();
    RepresentsSteps(ALL_ONES, ones, WireBits(bytes));
    RegisterDivides(ones, WireBits(bytes));
  }

  lemma AllOnesRepresents()
    ensures Represents(ALL_ONES, seq(32, _ => true))
  {
    var all := Pow2(32) - 1;
    assert all == ALL_ONES by { Pow2Table(); }
    forall i | 0 <= i < 32
      ensures BitAt(all, i)
    {
      OnesBits(32, i);
    }
  }

  lemma {:induction false} OnesBits(m: nat, n: nat)
    requires n < m
    ensures BitAt(Pow2(m) - 1, n)
  {
    if n > 0 {
      assert (Pow2(m) - 1) / 2 == Pow2(m - 1) - 1;
      OnesBits(m - 1, n - 1);
    }
  }

  lemma HashIsStandard(a: Address, i: nat)
    requires i < 6
    ensures BitAt(Hash(a), i) == StandardRemainder(WireBits(a))[i]
  {
    CalCrcIsStandard(a);
    SixBits(CalCrc(a));
    TruncateBits(CalCrc(a), i, 6);
  }

  // The table ---------------------------------------------------------------------------------

  // The broadcast address hashes to 63.
  ghost predicate Listed(addresses: seq<Address>, h: nat) {
    h == 63 || exists a <- addresses :: Hash(a) == h
  }

  ghost predicate TableExact(table: seq<u16>, addresses: seq<Address>)
    requires |table| == 4
  {
    forall h: nat {:trigger Listed(addresses, h)} ::
      h < 64 ==> BitAt(table[h / 16], h % 16) == Listed(addresses, h)
  }

  // A 16-bit word of the table with one more bit set.
  function Mark(word: u16, bit: nat): (w: u16)
    requires bit < 16
  {
    MarkFits(word, bit);
    Or(word, Pow2(bit))
  }

  lemma MarkFits(word: u16, bit: nat)
    requires bit < 16
    ensures Or(word, Pow2(bit)) < 0x1_0000
  {
    Pow2Grows(bit, 15);
    Pow2Table();
    OrBound(word, Pow2(bit), 16);
  }

  lemma {:induction false} Pow2Grows(a: nat, b: nat)
    requires a <= b
    ensures Pow2(a) <= Pow2(b)
    decreases b - a
  {
    if a < b {
      Pow2Grows(a, b - 1);
    }
  }

  lemma MarkTable(table: seq<u16>, addresses: seq<Address>, a: Address)
    requires |table| == 4 && TableExact(table, addresses)
    ensures TableExact(table[Hash(a) / 16 := Mark(table[Hash(a) / 16], Hash(a) % 16)], addresses + [a])
  {
    var x := Hash(a);
    var marked := table[x / 16 := Mark(table[x / 16], x % 16)];
    var more := addresses + [a];
    forall h: nat | h < 64
      ensures BitAt(marked[h / 16], h % 16) == Listed(more, h)
    {
      assert Listed(more, h) == (Listed(addresses, h) || h == x) by {
        assert a in more && forall b <- addresses :: b in more;
        assert forall b <- more :: b in addresses || b == a;
      }
      if h / 16 == x / 16 {
        OrBits(table[x / 16], Pow2(x % 16), h % 16);
        PowerBits(x % 16, h % 16);
      }
    }
  }

  lemma EmptyTable()
    ensures TableExact([0, 0, 0, 0x8000], [])
  {
    var table: seq<u16> := [0, 0, 0, 0x8000];
    assert Pow2(15) == 0x8000 by { assert Pow2(8) == 0x100; assert Pow2(12) == 0x1000; }
    forall h: nat | h < 64
      ensures BitAt(table[h / 16], h % 16) == Listed([], h)
    {
      ZeroBits(h % 16);
      PowerBits(15, h % 16);
    }
  }

  // Eight registers hold the filter, bit h % 8 of the (h / 8)-th for hash h.
  ghost predicate FilterExact(filter: seq<byte>, addresses: seq<Address>)
    requires |filter| == 8
  {
    forall h: nat {:trigger Listed(addresses, h)} ::
      h < 64 ==> BitAt(filter[h / 8], h % 8) == Listed(addresses, h)
  }

  lemma SplitTable(table: seq<u16>, filter: seq<byte>, addresses: seq<Address>)
    requires |table| == 4 && |filter| == 8 && TableExact(table, addresses)
    requires forall i :: 0 <= i < 4 ==> filter[2 * i] == Low(table[i]) && filter[2 * i + 1] == High(table[i])
    ensures FilterExact(filter, addresses)
  {
    forall h: nat | h < 64
      ensures BitAt(filter[h / 8], h % 8) == Listed(addresses, h)
    {
      var i := h / 16;
      assert filter[2 * i] == Low(table[i]) && filter[2 * i + 1] == High(table[i]);
      ByteBits(table[i], h % 8);
      assert h / 8 == if h % 16 < 8 then 2 * i else 2 * i + 1;
      assert h % 16 == if h % 16 < 8 then h % 8 else h % 8 + 8;
    }
  }
}
