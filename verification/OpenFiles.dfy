// Open files and the calls that move their position: lseek, read, write, pread and pwrite.

module OpenFiles {
  import opened Bytes
  import opened Words
  import opened Seeks

  // f_mode and f_op: what the file was opened for and which operations its file system has. A file
  // system with an llseek of its own uses generic_file_llseek here.
  datatype FileMode = FileMode(read: bool, write: bool, pread: bool, pwrite: bool, lseek: bool)
  datatype FileOps = FileOps(read: bool, aioRead: bool, write: bool, aioWrite: bool,
                             llseek: bool, sendfile: bool, sendpage: bool)

  // What the mandatory locks, the security module and the file operation answer: 0 or an error for
  // the first two, an error or a number of bytes offered for the last.
  type Refusal = n: int | -TWO_31 <= n <= 0
  datatype Answer = Answer(lock: Refusal, permission: Refusal, result: ssize_t)

  // The bytes of a file from pos on, at most n of them.
  function Range(data: seq<byte>, pos: nat, n: nat): seq<byte> {
    if pos >= |data| then [] else data[pos..Min(pos + n, |data|)]
  }

  // A file after `bytes` were written at pos; a gap behind its end reads as zeros.
  function Overlay(data: seq<byte>, pos: nat, bytes: seq<byte>): (r: seq<byte>)
    ensures Range(r, pos, |bytes|) == bytes
    ensures forall i :: 0 <= i < |r| && (i < pos || i >= pos + |bytes|) ==> r[i] == if i < |data| then data[i] else 0
    ensures |r| == if bytes == [] || |data| >= pos + |bytes| then |data| else pos + |bytes|
    ensures forall i :: 0 <= i < |bytes| ==> r[pos + i] == bytes[i]
  {
    if bytes == [] then data
    else
      var filled := if |data| < pos then data + seq(pos - |data|, _ => 0) else data;
      filled[..pos] + bytes + (if pos + |bytes| <= |filled| then filled[pos + |bytes|..] else [])
  }

  class OpenFile {
    const mode: FileMode
    // null when the file has no operations
    const ops: FileOps
    const hasOps: bool
    const maxBytes: loff_t
    var pos: loff_t
    var version: nat
    var data: seq<byte>

    constructor (mode: FileMode, hasOps: bool, ops: FileOps, maxBytes: loff_t, data: seq<byte>)
      requires 0 <= maxBytes && |data| < TWO_63
      ensures Valid() && pos == 0 && this.data == data && this.maxBytes == maxBytes
    {
      this.mode, this.hasOps, this.ops, this.maxBytes, this.data := mode, hasOps, ops, maxBytes, data;
      pos, version := 0, 0;
    }

    // The position is never negative.
    ghost predicate Valid()
      reads this
    {
      0 <= pos && 0 <= maxBytes && |data| < TWO_63
    }
  }

  // rw_verify_area: an error, or how many of the `count` bytes may be asked for.
  function VerifyArea(pos: loff_t, count: size_t, lock: Refusal): (r: int)
    ensures 0 <= r <==> count < TWO_31 && 0 <= pos && pos + count < TWO_63 && lock == 0
    ensures 0 <= r ==> r == Min(count, MAX_RW_COUNT)
    ensures r < 0 ==> r == if count >= TWO_31 || pos < 0 || pos + count >= TWO_63 then EINVAL else lock
  {
    if Signed32(count) < 0 then EINVAL
    else if pos < 0 || Signed64(pos + count) < 0 then EINVAL
    else if lock < 0 then lock
    else if count > MAX_RW_COUNT then MAX_RW_COUNT else count
  }

  // What a file operation called for len bytes returns: its error, or how many bytes it transfers, no
  // more than were offered and, for a read, than the file still holds.
  function Moved(read: bool, answer: ssize_t, len: nat, size: nat, pos: nat): (nr: int)
    ensures nr <= len && (nr < 0 <==> answer < 0)
    ensures nr < 0 ==> nr == answer
    // everything offered, unless the count or the end of the file stops it
    ensures answer >= 0 ==> nr <= answer && (read ==> nr == 0 || pos + nr <= size)
    ensures 0 <= nr < answer ==> nr == len || (read && pos + nr >= size)
  {
    if answer < 0 then answer
    else if read then Min(Min(answer, len), if pos < size then size - pos else 0)
    else Min(answer, len)
  }

  // The file operations: an error without effect, or a transfer of nr bytes that moves the position by nr.

  method ReadOp(file: OpenFile, mem: array<byte>, base: nat, len: nat, pos: loff_t, answer: ssize_t)
    returns (nr: int, pos': loff_t)
    requires file.Valid() && 0 <= pos && pos + len < TWO_63 && base + len <= mem.Length
    modifies mem
    ensures nr == Moved(true, answer, len, |file.data|, pos)
    ensures nr < 0 ==> nr == answer && pos' == pos && mem[..] == old(mem[..])
    ensures nr >= 0 ==> nr <= len && pos' == pos + nr
    ensures nr >= 0 ==> |Range(file.data, pos, nr)| == nr
    ensures nr >= 0 ==> mem[..] == Splice(old(mem[..]), base, Range(file.data, pos, nr))
  {
    if answer < 0 {
      return answer, pos;
    }
    var bytes := Range(file.data, pos, Min(answer, len));
    nr := |bytes|;
    StoreBytes(mem, base, bytes);
    pos' := pos + nr;
  }

  method WriteOp(file: OpenFile, mem: array<byte>, base: nat, len: nat, pos: loff_t, answer: ssize_t)
    returns (nr: int, pos': loff_t)
    requires file.Valid() && 0 <= pos && pos + len < TWO_63 && base + len <= mem.Length
    modifies file`data
    ensures file.Valid()
    ensures nr == Moved(false, answer, len, |old(file.data)|, pos)
    ensures nr < 0 ==> nr == answer && pos' == pos && file.data == old(file.data)
    ensures nr >= 0 ==> nr <= len && pos' == pos + nr
    ensures nr >= 0 ==> file.data == Overlay(old(file.data), pos, mem[base..base + nr])
  {
    if answer < 0 {
      return answer, pos;
    }
    nr := Min(answer, len);
    file.data := Overlay(file.data, pos, mem[base..base + nr]);
    pos' := pos + nr;
  }

  // vfs_read and vfs_write. `asked` is what the file operation was asked for, if it was called.

  datatype Asked = NotCalled | Called(count: nat)

  // What the file operation is asked for, in unbounded arithmetic: nothing unless the file was opened
  // for it and has the operation, the buffer is accessible, the range lies below 2^31 bytes and inside
  // loff_t, and neither lock nor security module refuses.
  function Allowed(granted: bool, operation: bool, accessOk: bool, pos: int, count: size_t, a: Answer): Asked {
    if granted && operation && accessOk
       && count < TWO_31 && 0 <= pos && pos + count < TWO_63 && a.lock == 0 && a.permission == 0
    then Called(Min(count, MAX_RW_COUNT)) else NotCalled
  }

  // The first check that fails decides the error.
  function Refused(granted: bool, operation: bool, accessOk: bool, pos: loff_t, count: size_t, a: Answer): (r: int)
    ensures r <= 0
    ensures r == 0 <==> Allowed(granted, operation, accessOk, pos, count, a).Called?
    ensures !granted ==> r == EBADF
    ensures granted && !operation ==> r == EINVAL
    ensures granted && operation && !accessOk ==> r == EFAULT
    ensures granted && operation && accessOk ==>
      r == if count >= TWO_31 || pos < 0 || pos + count >= TWO_63 then EINVAL
           else if a.lock < 0 then a.lock else a.permission
  {
    if !granted then EBADF
    else if !operation then EINVAL
    else if !accessOk then EFAULT
    else if VerifyArea(pos, count, a.lock) < 0 then VerifyArea(pos, count, a.lock)
    else a.permission
  }

  predicate CanRead(file: OpenFile) {
    file.hasOps && (file.ops.read || file.ops.aioRead)
  }

  predicate CanWrite(file: OpenFile) {
    file.hasOps && (file.ops.write || file.ops.aioWrite)
  }

  method VfsRead(file: OpenFile, mem: array<byte>, base: nat, count: size_t, pos: loff_t, accessOk: bool, a: Answer)
    returns (ret: int, pos': loff_t, asked: Asked)
    requires file.Valid() && (accessOk ==> base + count <= mem.Length)
    modifies mem
    ensures ret < 0 ==> pos' == pos && mem[..] == old(mem[..])
    ensures ret >= 0 ==> 0 <= pos && ret <= Min(count, MAX_RW_COUNT) && pos' == pos + ret
    ensures ret >= 0 ==> base + ret <= mem.Length && |Range(file.data, pos, ret)| == ret
    ensures ret >= 0 ==>
      mem[..] == Splice(old(mem[..]), base, Range(file.data, pos, ret))
    ensures asked.Called? ==> asked.count == Min(count, MAX_RW_COUNT) && 0 <= pos && pos + count < TWO_63
    ensures asked == Allowed(file.mode.read, CanRead(file), accessOk, pos, count, a)
    ensures asked.Called? ==> ret == Moved(true, a.result, asked.count, |file.data|, pos)
    ensures asked.NotCalled? ==> ret == Refused(file.mode.read, CanRead(file), accessOk, pos, count, a)
  {
    pos', asked := pos, NotCalled;
    if !file.mode.read {
      return EBADF, pos', asked;
    }
    if !file.hasOps || (!file.ops.read && !file.ops.aioRead) {
      return EINVAL, pos', asked;
    }
    if !accessOk {
      return EFAULT, pos', asked;
    }
    ret := VerifyArea(pos, count, a.lock);
    if ret >= 0 {
      var allowed := ret;
      ret := a.permission;
      if ret == 0 {
        asked := Called(allowed);
        ret, pos' := ReadOp(file, mem, base, allowed, pos, a.result);
      }
    }
  }

  method VfsWrite(file: OpenFile, mem: array<byte>, base: nat, count: size_t, pos: loff_t, accessOk: bool, a: Answer)
    returns (ret: int, pos': loff_t, asked: Asked)
    requires file.Valid() && (accessOk ==> base + count <= mem.Length)
    modifies file`data
    ensures file.Valid()
    ensures ret < 0 ==> pos' == pos && file.data == old(file.data)
    ensures ret >= 0 ==> 0 <= pos && ret <= Min(count, MAX_RW_COUNT) && pos' == pos + ret
    ensures ret >= 0 ==> base + ret <= mem.Length
    ensures ret >= 0 ==>
      file.data == Overlay(old(file.data), pos, mem[base..base + ret])
    ensures asked.Called? ==> asked.count == Min(count, MAX_RW_COUNT) && 0 <= pos && pos + count < TWO_63
    ensures asked == Allowed(file.mode.write, CanWrite(file), accessOk, pos, count, a)
    ensures asked.Called? ==> ret == Moved(false, a.result, asked.count, |old(file.data)|, pos)
    ensures asked.NotCalled? ==> ret == Refused(file.mode.write, CanWrite(file), accessOk, pos, count, a)
  {
    pos', asked := pos, NotCalled;
    if !file.mode.write {
      return EBADF, pos', asked;
    }
    if !file.hasOps || (!file.ops.write && !file.ops.aioWrite) {
      return EINVAL, pos', asked;
    }
    if !accessOk {
      return EFAULT, pos', asked;
    }
    ret := VerifyArea(pos, count, a.lock);
    if ret >= 0 {
      var allowed := ret;
      ret := a.permission;
      if ret == 0 {
        asked := Called(allowed);
        ret, pos' := WriteOp(file, mem, base, allowed, pos, a.result);
      }
    }
  }

  // Seeking ----------------------------------------------------------------------------------------

  // Where a seek goes: the target in unbounded arithmetic when it lies in the file system's range, or,
  // without a seek of its own, anywhere in loff_t.
  ghost function Sought(file: OpenFile, size: nat, pos: int, offset: int, origin: nat): loff_t {
    var target := Target(size, pos, offset, origin);
    var limit := if file.hasOps && file.ops.llseek then file.maxBytes else TWO_63 - 1;
    if !file.mode.lseek then ESPIPE else if 0 <= target <= limit then target else EINVAL
  }

  // What vfs_llseek returns for an open file.
  ghost function SeekResult(file: OpenFile, offset: loff_t, origin: nat): (r: loff_t)
    reads file
    requires file.Valid()
    ensures r == Sought(file, |file.data|, file.pos, offset, origin)
  {
    if !file.mode.lseek then ESPIPE
    else if file.hasOps && file.ops.llseek then GenericSeek(|file.data|, file.pos, file.maxBytes, offset, origin)
    else DefaultSeek(|file.data|, file.pos, offset, origin)
  }

  // The position is set when the offset asked for is acceptable, and left alone otherwise.
  method SetPosition(file: OpenFile, target: int) returns (retval: loff_t)
    requires file.Valid() && (target == EINVAL || 0 <= target < TWO_63)
    modifies file`pos, file`version
    ensures file.Valid() && retval == target
    ensures file.pos == if target >= 0 then target else old(file.pos)
    ensures file.version == if file.pos != old(file.pos) then 0 else old(file.version)
  {
    retval := EINVAL;
    if target >= 0 {
      if target != file.pos {
        file.pos := target;
        file.version := 0;
      }
      retval := target;
    }
  }

  method VfsLlseek(file: OpenFile, offset: loff_t, origin: nat) returns (r: loff_t)
    requires file.Valid()
    modifies file`pos, file`version
    ensures file.Valid() && r == old(SeekResult(file, offset, origin))
    ensures file.pos == if r >= 0 then r else old(file.pos)
  {
    if !file.mode.lseek {
      return ESPIPE;
    }
    if file.hasOps && file.ops.llseek {
      r := SetPosition(file, GenericSeek(|file.data|, file.pos, file.maxBytes, offset, origin));
    } else {
      r := SetPosition(file, DefaultSeek(|file.data|, file.pos, offset, origin));
    }
  }

  // The system calls; `file` is null when the descriptor is bad ---------------------------------------

  method SysLseek(file: OpenFile?, offset: ssize_t, origin: nat) returns (ret: int)
    requires file != null ==> file.Valid()
    modifies if file != null then {file} else {}
    ensures file == null ==> ret == EBADF
    ensures file != null ==> file.Valid() && file.data == old(file.data)
    ensures file != null && origin > SEEK_MAX ==> ret == EINVAL && file.pos == old(file.pos)
    ensures file != null && origin <= SEEK_MAX ==>
      var res := old(SeekResult(file, offset, origin));
      ret == Truncated(res) && file.pos == if res >= 0 then res else old(file.pos)
  {
    if file == null {
      return EBADF;
    }
    ret := EINVAL;
    if origin <= SEEK_MAX {
      var res := VfsLlseek(file, offset, origin);
      ret := Truncated(res);
    }
  }

  method SysLlseek(file: OpenFile?, high: size_t, low: size_t, origin: nat, copyOk: bool)
    returns (ret: int, result: loff_t)
    requires file != null ==> file.Valid()
    modifies if file != null then {file} else {}
    ensures file == null ==> ret == EBADF
    ensures file != null ==> file.Valid() && file.data == old(file.data)
    ensures file != null && origin > SEEK_MAX ==> ret == EINVAL && file.pos == old(file.pos)
    ensures file != null && origin <= SEEK_MAX ==>
      result == old(SeekResult(file, Compose(high, low), origin)) &&
      file.pos == (if result >= 0 then result else old(file.pos)) &&
      ret == if result < 0 then result else if copyOk then 0 else EFAULT
  {
    result := 0;
    if file == null {
      return EBADF, 0;
    }
    if origin > SEEK_MAX {
      return EINVAL, 0;
    }
    result := VfsLlseek(file, Compose(high, low), origin);
    ret := Signed32(result);
    if result >= 0 {
      ret := EFAULT;
      if copyOk {
        ret := 0;
      }
    }
  }

  // sys_read and sys_write keep the position the file operation reached; sys_pread64 and sys_pwrite64
  // work on a copy of their own.
  method SysRead(file: OpenFile?, mem: array<byte>, base: nat, count: size_t, accessOk: bool, a: Answer)
    returns (ret: int, asked: Asked)
    requires file != null ==> file.Valid()
    requires accessOk ==> base + count <= mem.Length
    modifies mem, if file != null then {file} else {}
    ensures file == null ==> ret == EBADF && asked == NotCalled
    ensures file != null ==> file.Valid() && file.data == old(file.data)
    ensures file != null ==> asked == Allowed(file.mode.read, CanRead(file), accessOk, old(file.pos), count, a)
    ensures file != null && asked.Called? ==> ret == Moved(true, a.result, asked.count, |file.data|, old(file.pos))
    ensures file != null && asked.NotCalled? ==>
      ret == Refused(file.mode.read, CanRead(file), accessOk, old(file.pos), count, a)
    ensures file != null ==> file.pos == if ret >= 0 then old(file.pos) + ret else old(file.pos)
    ensures ret < 0 ==> mem[..] == old(mem[..])
    ensures file != null && ret >= 0 ==> base + ret <= mem.Length && ret <= Min(count, MAX_RW_COUNT)
    ensures file != null && ret >= 0 ==> |Range(old(file.data), old(file.pos), ret)| == ret
    ensures file != null && ret >= 0 ==>
      mem[..] == Splice(old(mem[..]), base, Range(old(file.data), old(file.pos), ret))
  {
    ret, asked := EBADF, NotCalled;
    if file != null {
      var pos := file.pos;
      ret, pos, asked := VfsRead(file, mem, base, count, pos, accessOk, a);
      file.pos := pos;
    }
  }

  method SysWrite(file: OpenFile?, mem: array<byte>, base: nat, count: size_t, accessOk: bool, a: Answer)
    returns (ret: int, asked: Asked)
    requires file != null ==> file.Valid()
    requires accessOk ==> base + count <= mem.Length
    modifies if file != null then {file} else {}
    ensures file == null ==> ret == EBADF && asked == NotCalled
    ensures file != null ==> file.Valid()
    ensures file != null ==> asked == Allowed(file.mode.write, CanWrite(file), accessOk, old(file.pos), count, a)
    ensures file != null && asked.Called? ==>
      ret == Moved(false, a.result, asked.count, |old(file.data)|, old(file.pos))
    ensures file != null && asked.NotCalled? ==>
      ret == Refused(file.mode.write, CanWrite(file), accessOk, old(file.pos), count, a)
    ensures file != null ==> file.pos == if ret >= 0 then old(file.pos) + ret else old(file.pos)
    ensures file != null && ret >= 0 ==> base + ret <= mem.Length && ret <= Min(count, MAX_RW_COUNT)
    ensures file != null ==>
      file.data == if ret >= 0 then Overlay(old(file.data), old(file.pos), mem[base..base + ret]) else old(file.data)
  {
    ret, asked := EBADF, NotCalled;
    if file != null {
      var pos := file.pos;
      ret, pos, asked := VfsWrite(file, mem, base, count, pos, accessOk, a);
      file.pos := pos;
    }
  }

  method SysPread(file: OpenFile?, mem: array<byte>, base: nat, count: size_t, pos: loff_t, accessOk: bool, a: Answer)
    returns (ret: int, asked: Asked)
    requires file != null ==> file.Valid()
    requires accessOk ==> base + count <= mem.Length
    modifies mem
    ensures pos < 0 ==> ret == EINVAL
    ensures pos >= 0 && file == null ==> ret == EBADF
    ensures pos >= 0 && file != null && !file.mode.pread ==> ret == ESPIPE
    ensures asked == if file != null && file.mode.pread
                     then Allowed(file.mode.read, CanRead(file), accessOk, pos, count, a) else NotCalled
    ensures asked.Called? ==> ret == Moved(true, a.result, asked.count, |file.data|, pos)
    ensures asked.NotCalled? && pos >= 0 && file != null && file.mode.pread ==>
      ret == Refused(file.mode.read, CanRead(file), accessOk, pos, count, a)
    ensures ret < 0 ==> mem[..] == old(mem[..])
    ensures ret >= 0 ==> file != null && base + ret <= mem.Length && pos >= 0 && |Range(file.data, pos, ret)| == ret
    ensures ret >= 0 ==>
      mem[..] == Splice(old(mem[..]), base, Range(file.data, pos, ret))
  {
    asked := NotCalled;
    if pos < 0 {
      return EINVAL, asked;
    }
    ret := EBADF;
    if file != null {
      ret := ESPIPE;
      if file.mode.pread {
        var own;
        ret, own, asked := VfsRead(file, mem, base, count, pos, accessOk, a);
      }
    }
  }

  method SysPwrite(file: OpenFile?, mem: array<byte>, base: nat, count: size_t, pos: loff_t, accessOk: bool, a: Answer)
    returns (ret: int, asked: Asked)
    requires file != null ==> file.Valid()
    requires accessOk ==> base + count <= mem.Length
    modifies if file != null then {file} else {}
    ensures file != null ==> file.Valid() && file.pos == old(file.pos)
    ensures pos < 0 ==> ret == EINVAL
    ensures pos >= 0 && file == null ==> ret == EBADF
    ensures pos >= 0 && file != null && !file.mode.pwrite ==> ret == ESPIPE
    ensures asked == if file != null && file.mode.pwrite
                     then Allowed(file.mode.write, CanWrite(file), accessOk, pos, count, a) else NotCalled
    ensures asked.Called? ==> ret == Moved(false, a.result, asked.count, |old(file.data)|, pos)
    ensures asked.NotCalled? && pos >= 0 && file != null && file.mode.pwrite ==>
      ret == Refused(file.mode.write, CanWrite(file), accessOk, pos, count, a)
    ensures ret < 0 && file != null ==> file.data == old(file.data)
    ensures ret >= 0 ==> file != null && base + ret <= mem.Length && pos >= 0
    ensures ret >= 0 ==> file.data == Overlay(old(file.data), pos, mem[base..base + ret])
  {
    asked := NotCalled;
    if pos < 0 {
      return EINVAL, asked;
    }
    ret := EBADF;
    if file != null {
      ret := ESPIPE;
      if file.mode.pwrite {
        var own;
        ret, own, asked := VfsWrite(file, mem, base, count, pos, accessOk, a);
      }
    }
  }

  // Runs of calls on one file ----------------------------------------------------------------------------

  datatype Call =
    | Lseek(offset: ssize_t, origin: nat)
    | Llseek(high: size_t, low: size_t, origin: nat, copyOk: bool)
    | Read(base: nat, count: size_t, answer: Answer)
    | Write(base: nat, count: size_t, answer: Answer)
    | Pread(base: nat, count: size_t, at: loff_t, answer: Answer)
    | Pwrite(base: nat, count: size_t, at: loff_t, answer: Answer)

  // What a call may change: the position, the file's contents and the caller's memory.
  datatype State = State(pos: loff_t, data: seq<byte>, mem: seq<byte>)

  ghost predicate SeeksTo(target: loff_t, s: State, s': State) {
    s' == if target >= 0 then s.(pos := target) else s
  }

  // A transfer at `at`, which `placed` says the file allows: the operation is asked exactly where it may
  // be, returns what it moved, and exactly those bytes change; otherwise the first check that fails
  // decides the error.
  ghost predicate Transfers(read: bool, placed: bool, granted: bool, operation: bool, s: State, at: loff_t,
                            base: nat, count: size_t, a: Answer, ret: int, asked: Asked, s': State) {
    && var accessOk := base + count <= |s.mem|;
    && asked == (if placed then Allowed(granted, operation, accessOk, at, count, a) else NotCalled)
    && (asked.Called? ==> 0 <= at && ret == Moved(read, a.result, asked.count, |s.data|, at))
    && (asked.NotCalled? ==>
          && ret < 0
          && ret == if at < 0 then EINVAL
                    else if !placed then ESPIPE
                    else Refused(granted, operation, accessOk, at, count, a))
    && if ret < 0 then s'.data == s.data && s'.mem == s.mem
       else if read then
         && base + ret <= |s.mem| && |Range(s.data, at, ret)| == ret
         && s'.data == s.data && s'.mem == Splice(s.mem, base, Range(s.data, at, ret))
       else
         base + ret <= |s.mem| && s'.mem == s.mem && s'.data == Overlay(s.data, at, s.mem[base..base + ret])
  }

  // What each call does, completely: its result, and the state it leaves.
  ghost predicate Moves(file: OpenFile, call: Call, s: State, ret: int, asked: Asked, s': State) {
    && 0 <= s'.pos
    && match call
       case Lseek(offset, origin) =>
         if origin > SEEK_MAX then ret == EINVAL && s' == s
         else
           // the file moves even where the result does not fit
           var target := Sought(file, |s.data|, s.pos, offset, origin);
           SeeksTo(target, s, s') && ret == if target < TWO_31 then target else EOVERFLOW
       case Llseek(high, low, origin, copyOk) =>
         if origin > SEEK_MAX then ret == EINVAL && s' == s
         else
           var target := Sought(file, |s.data|, s.pos, Compose(high, low), origin);
           SeeksTo(target, s, s') && ret == if target < 0 then target else if copyOk then 0 else EFAULT
       case Read(base, count, answer) =>
         && Transfers(true, true, file.mode.read, CanRead(file), s, s.pos, base, count, answer, ret, asked, s')
         && s'.pos == if ret >= 0 then s.pos + ret else s.pos
       case Write(base, count, answer) =>
         && Transfers(false, true, file.mode.write, CanWrite(file), s, s.pos, base, count, answer, ret, asked, s')
         && s'.pos == if ret >= 0 then s.pos + ret else s.pos
       case Pread(base, count, at, answer) =>
         && Transfers(true, file.mode.pread, file.mode.read, CanRead(file), s, at, base, count, answer,
                      ret, asked, s')
         && s'.pos == s.pos
       case Pwrite(base, count, at, answer) =>
         && Transfers(false, file.mode.pwrite, file.mode.write, CanWrite(file), s, at, base, count, answer,
                      ret, asked, s')
         && s'.pos == s.pos
  }

  method MakeCall(file: OpenFile, mem: array<byte>, call: Call) returns (ret: int, asked: Asked)
    requires file.Valid()
    modifies file, mem
    ensures file.Valid()
    ensures Moves(file, call, old(State(file.pos, file.data, mem[..])), ret, asked, State(file.pos, file.data, mem[..]))
  {
    hide Overlay, Splice, Range, Target, Sought, Moved;
    asked := NotCalled;
    match call
    case Lseek(offset, origin) =>
      ret := SysLseek(file, offset, origin);
    case Llseek(high, low, origin, copyOk) =>
      var result;
      ret, result := SysLlseek(file, high, low, origin, copyOk);
    case Read(base, count, answer) =>
      ret, asked := SysRead(file, mem, base, count, base + count <= mem.Length, answer);
    case Write(base, count, answer) =>
      ret, asked := SysWrite(file, mem, base, count, base + count <= mem.Length, answer);
    case Pread(base, count, at, answer) =>
      ret, asked := SysPread(file, mem, base, count, at, base + count <= mem.Length, answer);
    case Pwrite(base, count, at, answer) =>
      ret, asked := SysPwrite(file, mem, base, count, at, base + count <= mem.Length, answer);
  }

  // Every call of a run does exactly what Moves says.
  method RunCalls(file: OpenFile, mem: array<byte>, calls: seq<Call>)
    returns (rets: seq<int>, asked: seq<Asked>, states: seq<State>)
    requires file.Valid()
    modifies file, mem
    ensures file.Valid()
    ensures |rets| == |asked| == |calls| && |states| == |calls| + 1
    ensures states[0] == old(State(file.pos, file.data, mem[..]))
    ensures states[|calls|] == State(file.pos, file.data, mem[..])
    ensures forall i :: 0 <= i < |calls| ==> Moves(file, calls[i], states[i], rets[i], asked[i], states[i + 1])
  {
    hide Moves;
    rets, asked, states := [], [], [State(file.pos, file.data, mem[..])];
    for i := 0 to |calls|
      invariant file.Valid()
      invariant |rets| == |asked| == i && |states| == i + 1
      invariant states[0] == old(State(file.pos, file.data, mem[..]))
      invariant states[i] == State(file.pos, file.data, mem[..])
      invariant forall j :: 0 <= j < i ==> Moves(file, calls[j], states[j], rets[j], asked[j], states[j + 1])
    {
      var ret, was := MakeCall(file, mem, calls[i]);
      rets, asked := rets + [ret], asked + [was];
      states := states + [State(file.pos, file.data, mem[..])];
    }
  }

  // What such runs promise ---------------------------------------------------------------------------

  ghost predicate RunOf(file: OpenFile, calls: seq<Call>, rets: seq<int>, asked: seq<Asked>, states: seq<State>) {
    && |rets| == |asked| == |calls| && |states| == |calls| + 1
    && forall i :: 0 <= i < |calls| ==> Moves(file, calls[i], states[i], rets[i], asked[i], states[i + 1])
  }

  // The bytes the reads and writes of a run moved at the file's position.
  function Advance(calls: seq<Call>, rets: seq<int>): nat
    requires |calls| == |rets|
  {
    if calls == [] then 0
    else (if (calls[0].Read? || calls[0].Write?) && rets[0] >= 0 then rets[0] else 0) + Advance(calls[1..], rets[1..])
  }

  // Between two seeks the position is where it was plus what was read and written, whatever is read and
  // written elsewhere.
  lemma {:induction false} PositionCountsBytes(file: OpenFile, calls: seq<Call>, rets: seq<int>, asked: seq<Asked>,
                                               states: seq<State>)
    requires RunOf(file, calls, rets, asked, states)
    requires forall c <- calls :: !c.Lseek? && !c.Llseek?
    ensures states[|calls|].pos == states[0].pos + Advance(calls, rets)
    ensures |states[0].mem| == |states[|calls|].mem|
    decreases |calls|
  {
    hide Transfers;
    if calls != [] {
      assert Moves(file, calls[0], states[0], rets[0], asked[0], states[1]);
      SameMemorySize(file, calls[0], states[0], rets[0], asked[0], states[1]);
      assert calls[0] in calls;
      assert forall c <- calls[1..] :: c in calls;
      PositionCountsBytes(file, calls[1..], rets[1..], asked[1..], states[1..]);
    }
  }

  lemma SameMemorySize(file: OpenFile, call: Call, s: State, ret: int, asked: Asked, s': State)
    requires Moves(file, call, s, ret, asked, s')
    ensures |s'.mem| == |s.mem|
  {
  }

  // What was written is read back: a write, a seek back over it and a read of as many bytes, which the
  // file operation grants, put the same bytes in memory and leave the position behind them.
  lemma ReadsBackWhatItWrote(file: OpenFile, from: nat, count: size_t, a: Answer, to: nat, b: Answer,
                             rets: seq<int>, asked: seq<Asked>, states: seq<State>)
    requires |rets| == 3 && 0 <= rets[0] < TWO_31
    requires RunOf(file, [Write(from, count, a), Lseek(-rets[0], SEEK_CUR), Read(to, rets[0], b)], rets, asked, states)
    requires rets[1] >= 0 || rets[1] == EOVERFLOW
    requires asked[2].Called? && b.result >= rets[0]
    ensures rets[2] == rets[0] && states[3].pos == states[1].pos
    ensures from + rets[0] <= |states[0].mem| && to + rets[0] <= |states[3].mem|
    ensures states[3].mem[to..to + rets[0]] == states[0].mem[from..from + rets[0]]
  {
    hide Overlay;
    var write, seek, read := Write(from, count, a), Lseek(-rets[0], SEEK_CUR), Read(to, rets[0], b);
    assert [write, seek, read][0] == write && [write, seek, read][1] == seek && [write, seek, read][2] == read;
    assert Moves(file, write, states[0], rets[0], asked[0], states[1]);
    assert Moves(file, seek, states[1], rets[1], asked[1], states[2]);
    assert Moves(file, read, states[2], rets[2], asked[2], states[3]);
    assert states[2].pos == states[0].pos;
    var bytes := states[0].mem[from..from + rets[0]];
    assert Range(states[1].data, states[0].pos, |bytes|) == bytes;
  }

  // Where an lseek goes: from the start, from the position or from the end of the file, in unbounded
  // arithmetic, if that lies in the file system's range.
  lemma LseekLands(file: OpenFile, offset: ssize_t, origin: nat, s: State, ret: int, asked: Asked, s': State)
    requires Moves(file, Lseek(offset, origin), s, ret, asked, s')
    ensures origin > 2 ==> ret == -22 && s' == s
    ensures origin == 0 ==> Lands(file, offset, s, s') && ret == Reported(file, offset)
    ensures origin == 1 ==> Lands(file, s.pos + offset, s, s') && ret == Reported(file, s.pos + offset)
    ensures origin == 2 ==> Lands(file, |s.data| + offset, s, s') && ret == Reported(file, |s.data| + offset)
  {
  }

  // The same for the 64-bit call, whose high half carries the sign.
  lemma LlseekLands(file: OpenFile, high: size_t, low: size_t, origin: nat, copyOk: bool,
                    s: State, ret: int, asked: Asked, s': State)
    requires Moves(file, Llseek(high, low, origin, copyOk), s, ret, asked, s')
    ensures origin > 2 ==> ret == -22 && s' == s
    ensures origin <= 2 ==>
      var offset := 0x1_0000_0000 * (if high < 0x8000_0000 then high else high - 0x1_0000_0000) + low;
      var target := if origin == 0 then offset else if origin == 1 then s.pos + offset else |s.data| + offset;
      && Lands(file, target, s, s')
      && ret == if !file.mode.lseek then -29
                else if !InRange(file, target) then -22
                else if copyOk then 0 else -14
  {
    hide Compose;
    ComposeValue(high, low);
  }

  // Where a file that can seek accepts a position.
  predicate InRange(file: OpenFile, target: int) {
    && file.mode.lseek
    && 0 <= target <= if file.hasOps && file.ops.llseek then file.maxBytes else 0x7FFF_FFFF_FFFF_FFFF
  }

  ghost predicate Lands(file: OpenFile, target: int, s: State, s': State) {
    if InRange(file, target) then s'.pos == target && s' == s.(pos := s'.pos) else s' == s
  }

  // What a 32-bit result makes of it.
  function Reported(file: OpenFile, target: int): int {
    if !file.mode.lseek then -29
    else if !InRange(file, target) then -22
    else if target < 0x8000_0000 then target else -75
  }

  // When a read or write of either kind reaches the file operation, and what is returned when not.
  lemma AskedExactly(file: OpenFile, call: Call, s: State, ret: int, asked: Asked, s': State)
    requires Moves(file, call, s, ret, asked, s') && !call.Lseek? && !call.Llseek?
    ensures var reading, placed := call.Read? || call.Pread?, call.Pread? || call.Pwrite?;
      var at := if placed then call.at else s.pos;
      var granted := if reading then file.mode.read else file.mode.write;
      var able := file.hasOps &&
        if reading then file.ops.read || file.ops.aioRead else file.ops.write || file.ops.aioWrite;
      var placeable := if call.Pread? then file.mode.pread else if call.Pwrite? then file.mode.pwrite else true;
      var fits := call.count < 0x8000_0000 && 0 <= at && at + call.count < 0x8000_0000_0000_0000;
      && (asked.Called? <==>
            && placeable && granted && able && call.base + call.count <= |s.mem| && fits
            && call.answer.lock == 0 && call.answer.permission == 0)
      && (asked.Called? ==> asked.count == if call.count > 0x7FFF_F000 then 0x7FFF_F000 else call.count)
      && (asked.NotCalled? ==>
            && s' == s
            && ret == if at < 0 then -22
                      else if !placeable then -29
                      else if !granted then -9
                      else if !able then -22
                      else if call.base + call.count > |s.mem| then -14
                      else if !fits then -22
                      else if call.answer.lock < 0 then call.answer.lock else call.answer.permission)
  {
    hide Overlay, Splice, Range, Moved;
    assert 0 <= s'.pos;
  }

  // An lseek that fails has moved the file exactly when its target is acceptable, elsewhere, and beyond
  // what its 32-bit result can hold.
  lemma LseekFailsMoved(file: OpenFile, offset: ssize_t, origin: nat, s: State, ret: int, asked: Asked, s': State)
    requires Moves(file, Lseek(offset, origin), s, ret, asked, s')
    ensures ret < 0 && s' != s <==>
      && origin <= SEEK_MAX && file.mode.lseek
      && TWO_31 <= Target(|s.data|, s.pos, offset, origin)
                <= (if file.hasOps && file.ops.llseek then file.maxBytes else TWO_63 - 1)
      && Target(|s.data|, s.pos, offset, origin) != s.pos
    ensures ret < 0 && s' != s ==> ret == EOVERFLOW && s' == s.(pos := Target(|s.data|, s.pos, offset, origin))
  {
    var target := Target(|s.data|, s.pos, offset, origin);
    if origin <= SEEK_MAX && Sought(file, |s.data|, s.pos, offset, origin) >= 0 && target != s.pos {
      assert s.(pos := target).pos != s.pos;
    }
  }

  // One byte forward from 2^31 - 1: the file moves to 2^31 and the call reports EOVERFLOW, with either seek.
  lemma LseekFailsMovedAt(file: OpenFile, s: State, ret: int, asked: Asked, s': State)
    requires file.mode.lseek && file.maxBytes >= TWO_31
    requires s.pos == TWO_31 - 1 && Moves(file, Lseek(1, SEEK_CUR), s, ret, asked, s')
    ensures ret == EOVERFLOW && s'.pos == TWO_31
  {
    LseekFailsMoved(file, 1, SEEK_CUR, s, ret, asked, s');
  }
}
