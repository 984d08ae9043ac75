// Bytes, 16-bit words and single bits, kept as bounded integers.

module Bytes {
  type byte = b: nat | b < 0x100
  type u16 = w: nat | w < 0x1_0000

  // Is the bit of weight `weight` (a power of two) set in x?
  predicate Bit(x: nat, weight: nat)
    requires weight > 0
  {
    (x / weight) % 2 == 1
  }

  function Low(w: nat): byte {
    w % 0x100
  }

  function High(w: nat): byte {
    w / 0x100 % 0x100
  }

  // A 16-bit word put together from two bytes read from the bus.
  function Join(low: byte, high: byte): u16 {
    low + 0x100 * high
  }

  lemma JoinParts(low: byte, high: byte)
    ensures Low(Join(low, high)) == low && High(Join(low, high)) == high
  {
  }

  lemma JoinHalves(w: u16)
    ensures Join(Low(w), High(w)) == w
  {
  }

  // The low 16 bits of a length, put together from its two low bytes.
  lemma JoinLength(length: nat)
    ensures Join(Low(length), High(length)) == length % 0x1_0000
  {
    var q, s := length / 0x1_0000, length % 0x1_0000;
    var high, low := s / 0x100, s % 0x100;
    assert length == 0x1_0000 * q + 0x100 * high + low;
    assert length / 0x100 == 0x100 * q + high;
    assert Low(length) == low && High(length) == high;
  }

  // The number a little-endian memory holds in `bytes`.
  function LittleEndian(bytes: seq<byte>): nat {
    if bytes == [] then 0 else bytes[0] + 0x100 * LittleEndian(bytes[1..])
  }

  lemma LittleEndianWidths(bytes: seq<byte>)
    ensures |bytes| == 1 ==> LittleEndian(bytes) == bytes[0]
    ensures |bytes| == 2 ==> LittleEndian(bytes) == Join(bytes[0], bytes[1])
    ensures |bytes| == 4 ==> LittleEndian(bytes) == Join(bytes[0], bytes[1]) + 0x1_0000 * Join(bytes[2], bytes[3])
  {
  }

  // What storing the low `width` bytes of v leaves in a little-endian memory.
  function Store(v: nat, width: nat): (s: seq<byte>)
    ensures |s| == width
  {
    if width == 0 then [] else [v % 0x100] + Store(v / 0x100, width - 1)
  }

  lemma DivMod(low: byte, rest: nat)
    ensures (low + 0x100 * rest) % 0x100 == low && (low + 0x100 * rest) / 0x100 == rest
  {
  }

  // Storing what was loaded gives back the same bytes.
  lemma {:induction false} StoreLoad(bytes: seq<byte>)
    ensures Store(LittleEndian(bytes), |bytes|) == bytes
  {
    if bytes != [] {
      DivMod(bytes[0], LittleEndian(bytes[1..]));
      StoreLoad(bytes[1..]);
      assert bytes == [bytes[0]] + bytes[1..];
    }
  }

  // Memory after `bytes` were stored at base.
  function Splice(mem: seq<byte>, base: nat, bytes: seq<byte>): (r: seq<byte>)
    requires base + |bytes| <= |mem|
    ensures |r| == |mem|
  {
    mem[..base] + bytes + mem[base + |bytes|..]
  }

  // Storing on where the first bytes ended is storing all of them.
  lemma SpliceOn(mem: seq<byte>, base: nat, a: seq<byte>, b: seq<byte>)
    requires base + |a| + |b| <= |mem|
    ensures Splice(Splice(mem, base, a), base + |a|, b) == Splice(mem, base, a + b)
  {
  }

  lemma SpliceNothing(mem: seq<byte>, base: nat)
    requires base <= |mem|
    ensures Splice(mem, base, []) == mem
  {
  }

  method StoreBytes(mem: array<byte>, base: nat, bytes: seq<byte>)
    requires base + |bytes| <= mem.Length
    modifies mem
    ensures mem[..] == Splice(old(mem[..]), base, bytes)
  {
    for i := 0 to |bytes|
      invariant forall k :: 0 <= k < i ==> mem[base + k] == bytes[k]
      invariant mem[..base] == old(mem[..base]) && mem[base + i..] == old(mem[base + i..])
    {
      mem[base + i] := bytes[i];
    }
    assert mem[..] == mem[..base] + mem[base..base + |bytes|] + mem[base + |bytes|..];
    assert mem[base..base + |bytes|] == bytes;
  }
}
