// Seeking: where a seek goes, in wrapping 64-bit arithmetic, and how the 32-bit calls pass it on.

module Seeks {
  import opened Words

  const SEEK_CUR := 1
  const SEEK_END := 2
  const SEEK_MAX := 2

  // The target in unbounded arithmetic.
  function Target(size: nat, pos: int, offset: int, origin: nat): int {
    offset + if origin == SEEK_END then size else if origin == SEEK_CUR then pos else 0
  }

  // What generic_file_llseek returns; a result that is not negative is the new position.
  function GenericSeek(size: nat, pos: loff_t, maxBytes: loff_t, offset: loff_t, origin: nat): (r: int)
    requires size < TWO_63 && 0 <= pos && 0 <= maxBytes
    // it never lands on a wrapped offset, and fails exactly when the true target is out of range
    ensures var target := offset + (if origin == 2 then size else if origin == 1 then pos else 0);
      r == if 0 <= target <= maxBytes then target else EINVAL
  {
    var o := if origin == SEEK_END then Signed64(offset + size)
             else if origin == SEEK_CUR then Signed64(offset + pos) else offset;
    if o >= 0 && o <= maxBytes then o else EINVAL
  }

  // default_llseek has no upper bound but the type's.
  function DefaultSeek(size: nat, pos: loff_t, offset: loff_t, origin: nat): (r: int)
    requires size < TWO_63 && 0 <= pos
    ensures var target := offset + (if origin == 2 then size else if origin == 1 then pos else 0);
      r == if 0 <= target < TWO_63 then target else EINVAL
  {
    var o := if origin == SEEK_END then Signed64(offset + size)
             else if origin == SEEK_CUR then Signed64(offset + pos) else offset;
    if o >= 0 then o else EINVAL
  }

  // sys_lseek returns the low 32 bits, or an error when they are not the whole result.
  function Truncated(res: loff_t): (r: int)
    ensures r == if -TWO_31 <= res < TWO_31 then res else EOVERFLOW
  {
    var retval := Signed32(res);
    if res != retval then EOVERFLOW else retval
  }

  // sys_llseek puts the offset together from two 32-bit halves.
  function Compose(high: size_t, low: size_t): loff_t {
    Signed64(high * TWO_32 + low)
  }

  // The high half carries the sign.
  lemma ComposeValue(high: size_t, low: size_t)
    ensures Compose(high, low) ==
      0x1_0000_0000 * (if high < 0x8000_0000 then high else high - 0x1_0000_0000) + low
  {
  }

  function HighHalf(offset: loff_t): size_t {
    (offset % TWO_64) / TWO_32
  }

  function LowHalf(offset: loff_t): size_t {
    offset % TWO_32
  }

  lemma ComposeHalves(offset: loff_t)
    ensures Compose(HighHalf(offset), LowHalf(offset)) == offset
  {
    var u := if offset >= 0 then offset else offset + TWO_64;
    assert offset % TWO_64 == u;
    var high, low := u / TWO_32, u % TWO_32;
    assert u == TWO_32 * high + low;
    assert offset == TWO_32 * (if offset >= 0 then high else high - TWO_32) + low;
  }

  lemma ComposeInjective(high: size_t, low: size_t)
    ensures HighHalf(Compose(high, low)) == high && LowHalf(Compose(high, low)) == low
  {
  }
}
