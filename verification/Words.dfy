// The integer types of a 32-bit kernel with 64-bit file offsets, and their wrap-around.

module Words {
  const TWO_31 := 0x8000_0000
  const TWO_32 := 0x1_0000_0000
  const TWO_63 := 0x8000_0000_0000_0000
  const TWO_64 := 0x1_0000_0000_0000_0000

  // size_t and unsigned long; ssize_t, long and off_t; loff_t
  type size_t = n: nat | n < TWO_32
  type ssize_t = n: int | -TWO_31 <= n < TWO_31
  type loff_t = n: int | -TWO_63 <= n < TWO_63

  function Unsigned32(x: int): size_t {
    x % TWO_32
  }

  function Signed32(x: int): ssize_t {
    var r := x % TWO_32;
    if r < TWO_31 then r else r - TWO_32
  }

  function Signed64(x: int): loff_t {
    var r := x % TWO_64;
    if r < TWO_63 then r else r - TWO_64
  }

  function Min(a: int, b: int): int {
    if a <= b then a else b
  }

  const EBADF := -9
  const ENOMEM := -12
  const EFAULT := -14
  const EINVAL := -22
  const ESPIPE := -29
  const EOVERFLOW := -75

  // The largest int rounded down to whole pages of 4096 bytes.
  const MAX_RW_COUNT := 0x7FFF_F000
}
