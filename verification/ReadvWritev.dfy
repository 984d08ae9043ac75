// do_readv_writev: the segment vector is copied in and checked, the area verified, the transfer made,
// and the memory a long vector needed is given back on every path.

module ReadvWritev {
  import opened Bytes
  import opened Words
  import opened Iovecs
  import opened OpenFiles
  import opened VectoredIo

  // Where the kernel's copy of the vector is.
  datatype Vector = OnStack | Null | Heap(id: nat)

  class Slab {
    var live: set<nat>
    var next: nat

    constructor ()
      ensures Valid() && live == {}
    {
      live, next := {}, 0;
    }

    ghost predicate Valid()
      reads this
    {
      forall p <- live :: p < next
    }

    method Kmalloc(ok: bool) returns (p: Vector)
      requires Valid()
      modifies this
      ensures Valid()
      ensures p == if ok then Heap(old(next)) else Null
      ensures old(next) !in old(live)
      ensures live == if ok then old(live) + {old(next)} else old(live)
    {
      if !ok {
        return Null;
      }
      p := Heap(next);
      live, next := live + {next}, next + 1;
    }

    // Only live memory can be freed; freeing nothing is harmless.
    method Kfree(p: Vector)
      requires Valid() && !p.OnStack? && (p.Heap? ==> p.id in live)
      modifies this
      ensures Valid() && live == if p.Heap? then old(live) - {p.id} else old(live)
    {
      if p.Heap? {
        live := live - {p.id};
      }
    }
  }

  // rw_copy_check_uvector
  method CopyCheckUvector(slab: Slab, uvector: seq<Iovec>, mallocOk: bool, copyOk: bool,
                          accessOk: (size_t, size_t) -> bool)
    returns (ret: int, iov: Vector)
    requires slab.Valid() && |uvector| < TWO_32
    modifies slab
    ensures slab.Valid()
    ensures iov.Heap? <==> 8 < |uvector| <= 1024 && mallocOk
    ensures iov.Heap? ==> iov.id !in old(slab.live) && slab.live == old(slab.live) + {iov.id}
    ensures !iov.Heap? ==> slab.live == old(slab.live)
    ensures if uvector == [] then ret == 0
            else if |uvector| > 1024 then ret == EINVAL
            else if |uvector| > 8 && !mallocOk then ret == ENOMEM
            else if !copyOk then ret == EFAULT
            else CheckedAs(uvector, accessOk, ret)
    ensures ret > 0 ==> ret == Total(uvector) < TWO_31
  {
    iov := OnStack;
    if |uvector| == 0 {
      return 0, iov;
    }
    if |uvector| > UIO_MAXIOV {
      return EINVAL, iov;
    }
    if |uvector| > UIO_FASTIOV {
      iov := slab.Kmalloc(mallocOk);
      if iov == Null {
        return ENOMEM, iov;
      }
    }
    if !copyOk {
      return EFAULT, iov;
    }
    ret := CheckVector(uvector, accessOk);
  }

  lemma AccessibleInside(v: seq<Iovec>, accessOk: (size_t, size_t) -> bool, ret: int, size: nat)
    requires CheckedAs(v, accessOk, ret) && ret >= 0
    requires forall base: size_t, len: size_t :: accessOk(base, len) ==> base + len <= size
    ensures forall s <- v :: s.base + s.len <= size
  {
    forall s | s in v
      ensures s.base + s.len <= size
    {
      var i :| 0 <= i < |v| && v[i] == s;
      assert SegmentOk(v, i, accessOk);
    }
  }

  // Whether the transfer loop was reached, and what its calls of the file operation returned.
  datatype Loop = NotRun | Ran(results: seq<int>)

  // The vector copied in, allocated for and checked as it must be.
  ghost predicate VectorGood(uvector: seq<Iovec>, mallocOk: bool, copyOk: bool, accessOk: (size_t, size_t) -> bool) {
    && 0 < |uvector| <= UIO_MAXIOV && (|uvector| > UIO_FASTIOV ==> mallocOk) && copyOk
    && forall i :: 0 <= i < |uvector| ==> SegmentOk(uvector, i, accessOk)
  }

  // When the transfer loop runs: there is something to transfer and nothing forbids it.
  ghost predicate Runs(hasOps: bool, uvector: seq<Iovec>, pos: int, mallocOk: bool, copyOk: bool,
                       accessOk: (size_t, size_t) -> bool, a: Answer)
  {
    && hasOps && VectorGood(uvector, mallocOk, copyOk, accessOk)
    && 0 < Total(uvector) && 0 <= pos && pos + Total(uvector) < TWO_63
    && a.lock == 0 && a.permission == 0
  }

  // What is returned when it does not: the first failing check's error, or 0 when nothing was asked for.
  ghost predicate RefusedAs(hasOps: bool, uvector: seq<Iovec>, pos: loff_t, mallocOk: bool, copyOk: bool,
                            accessOk: (size_t, size_t) -> bool, a: Answer, ret: int)
  {
    if !hasOps then ret == EINVAL
    else if uvector == [] then ret == 0
    else if |uvector| > UIO_MAXIOV then ret == EINVAL
    else if |uvector| > UIO_FASTIOV && !mallocOk then ret == ENOMEM
    else if !copyOk then ret == EFAULT
    else if !VectorGood(uvector, mallocOk, copyOk, accessOk) then ret < 0 && CheckedAs(uvector, accessOk, ret)
    else if Total(uvector) == 0 then ret == 0
    else if pos < 0 || pos + Total(uvector) >= TWO_63 then ret == EINVAL
    else ret == if a.lock < 0 then a.lock else a.permission
  }

  // Everything up to the end of the transfer.
  method CheckedTransfer(read: bool, file: OpenFile, mem: array<byte>, slab: Slab, uvector: seq<Iovec>, pos: loff_t,
                         mallocOk: bool, copyOk: bool, accessOk: (size_t, size_t) -> bool,
                         a: Answer, answers: seq<ssize_t>)
    returns (ret: int, iov: Vector, pos': loff_t, loop: Loop)
    requires file.Valid() && slab.Valid() && |uvector| < TWO_32 && |answers| == |uvector|
    requires forall base: size_t, len: size_t :: accessOk(base, len) ==> base + len <= mem.Length
    modifies mem, file`data, slab
    ensures file.Valid() && slab.Valid()
    ensures iov.Heap? ==> iov.id !in old(slab.live) && slab.live == old(slab.live) + {iov.id}
    ensures !iov.Heap? ==> slab.live == old(slab.live)
    ensures loop.Ran? <==> Runs(file.hasOps, uvector, pos, mallocOk, copyOk, accessOk, a)
    ensures loop.NotRun? ==> RefusedAs(file.hasOps, uvector, pos, mallocOk, copyOk, accessOk, a, ret) && ret <= 0
    ensures loop.Ran? ==>
      && CallsReturn(read, uvector, answers, |old(file.data)|, pos, loop.results)
      && ret == Outcome(uvector, loop.results)
      && (AllCovered(read, uvector, answers, |old(file.data)|, pos) ==> ret == Total(uvector))
    ensures ret <= 0 ==> pos' == pos
    ensures ret <= 0 ==> mem[..] == old(mem[..]) && file.data == old(file.data)
    ensures ret > 0 ==> 0 <= pos && ret <= Total(uvector) && pos' == pos + ret
    ensures ret > 0 ==>
      Transferred(read, old(mem[..]), mem[..], old(file.data), file.data, pos, Stream(uvector)[..ret])
  {
    hide Transferred, Stream, Total, CallsReturn, AllCovered, SegmentOk, Outcome;
    iov, pos', loop := OnStack, pos, NotRun;
    if !file.hasOps {
      return EINVAL, iov, pos', loop;
    }
    ret, iov := CopyCheckUvector(slab, uvector, mallocOk, copyOk, accessOk);
    if ret <= 0 {
      CheckFails(uvector, mallocOk, copyOk, accessOk, ret);
      return;
    }
    AccessibleInside(uvector, accessOk, ret, mem.Length);
    ret := VerifyArea(pos, ret, a.lock);
    if ret < 0 {
      return;
    }
    ret := a.permission;
    if ret != 0 {
      return;
    }
    var results;
    ret, pos', results := DoLoopReadvWritev(read, file, mem, uvector, pos, answers);
    loop := Ran(results);
    if ret == 0 {
      assert Stream(uvector)[..0] == [];
      TransferredNothing(read, old(mem[..]), mem[..], old(file.data), file.data, pos);
    }
  }

  lemma CheckFails(uvector: seq<Iovec>, mallocOk: bool, copyOk: bool, accessOk: (size_t, size_t) -> bool, ret: int)
    ensures CheckedAs(uvector, accessOk, ret) && VectorGood(uvector, mallocOk, copyOk, accessOk) ==> ret >= 0
  {
  }

  // do_readv_writev
  method DoReadvWritev(read: bool, file: OpenFile, mem: array<byte>, slab: Slab, uvector: seq<Iovec>, pos: loff_t,
                       mallocOk: bool, copyOk: bool, accessOk: (size_t, size_t) -> bool,
                       a: Answer, answers: seq<ssize_t>)
    returns (ret: int, pos': loff_t, loop: Loop)
    requires file.Valid() && slab.Valid() && |uvector| < TWO_32 && |answers| == |uvector|
    requires forall base: size_t, len: size_t :: accessOk(base, len) ==> base + len <= mem.Length
    modifies mem, file`data, slab
    ensures file.Valid() && slab.Valid()
    // whatever path was taken, what was allocated was freed, once
    ensures slab.live == old(slab.live)
    ensures loop.Ran? <==> Runs(file.hasOps, uvector, pos, mallocOk, copyOk, accessOk, a)
    ensures loop.NotRun? ==> RefusedAs(file.hasOps, uvector, pos, mallocOk, copyOk, accessOk, a, ret) && ret <= 0
    ensures loop.Ran? ==>
      && CallsReturn(read, uvector, answers, |old(file.data)|, pos, loop.results)
      && ret == Outcome(uvector, loop.results)
      && (AllCovered(read, uvector, answers, |old(file.data)|, pos) ==> ret == Total(uvector))
    ensures ret <= 0 ==> pos' == pos
    ensures ret <= 0 ==> mem[..] == old(mem[..]) && file.data == old(file.data)
    ensures ret > 0 ==> 0 <= pos && ret <= Total(uvector) && pos' == pos + ret
    ensures ret > 0 ==>
      Transferred(read, old(mem[..]), mem[..], old(file.data), file.data, pos, Stream(uvector)[..ret])
  {
    hide Transferred, Stream, Total, CallsReturn, AllCovered, Outcome, Runs, RefusedAs;
    var iov;
    ret, iov, pos', loop :=
      CheckedTransfer(read, file, mem, slab, uvector, pos, mallocOk, copyOk, accessOk, a, answers);
    if iov != OnStack {
      slab.Kfree(iov);
    }
  }
}
