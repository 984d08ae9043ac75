// do_sendfile: two files are looked up, checked and released, and the file operation is asked for no
// more than the caller wanted and the size limit allows.

module Sendfile {
  import opened Words
  import opened OpenFiles

  // The references the call holds: fget_light takes one, fput_light gives one back.
  class References {
    var held: multiset<OpenFile>

    constructor ()
      ensures held == multiset{}
    {
      held := multiset{};
    }

    method Get(file: OpenFile?) returns (got: bool)
      modifies this
      ensures got == (file != null)
      ensures held == if file != null then old(held) + multiset{file} else old(held)
    {
      got := file != null;
      if file != null {
        held := held + multiset{file};
      }
    }

    // Only a reference that is held can be given back.
    method Put(file: OpenFile)
      requires file in held
      modifies this
      ensures held == old(held) - multiset{file}
    {
      held := held - multiset{file};
    }
  }

  // The in file's sendfile operation: an error without effect, or nr <= count bytes sent and the position moved by nr.
  method SendOp(pos: loff_t, count: size_t, max: loff_t, requested: size_t, answer: ssize_t)
    returns (retval: int, pos': loff_t)
    requires 0 <= pos && pos + count <= max && count <= requested && count <= MAX_RW_COUNT
    ensures retval == if answer < 0 then answer else Min(answer, count)
    ensures pos' == if retval < 0 then pos else pos + retval
  {
    if answer < 0 {
      return answer, pos;
    }
    retval := Min(answer, count);
    pos' := pos + retval;
  }

  // How the call ended: before the file operation, or with what it was asked for.
  datatype Sent = NotAsked | Asked(pos: loff_t, count: size_t)

  // The largest count the limit allows at pos.
  function Clamp(pos: int, count: int, max: int): int {
    if pos + count > max then max - pos else count
  }

  // From the position on: the limit, the operation and the final check.
  method Send(pos: loff_t, count: size_t, max: loff_t, requested: size_t, answer: ssize_t)
    returns (retval: int, pos': loff_t, sent: Sent)
    requires pos + count < TWO_63 && count <= requested && count <= MAX_RW_COUNT
    ensures retval < 0 ==> pos' == pos
    ensures retval >= 0 ==> pos' == pos + retval <= max
    // too far is an error before anything is asked; afterwards nothing can have gone too far
    ensures sent.NotAsked? <==> pos < 0 || (pos + count > max && pos >= max)
    ensures sent.NotAsked? ==> retval == if pos < 0 then EINVAL else EOVERFLOW
    ensures sent.Asked? ==> sent.pos == pos && sent.count == Clamp(pos, count, max)
    ensures sent.Asked? ==> sent.count <= requested && pos + sent.count <= max
    ensures sent.Asked? ==> retval == if answer < 0 then answer else Min(answer, sent.count)
  {
    sent, pos', retval := NotAsked, pos, EINVAL;
    if pos < 0 {
      return;
    }
    // both are computed in loff_t; the types show that neither overflows
    var sum: loff_t := pos + count;
    var allowed := count;
    if sum > max {
      retval := EOVERFLOW;
      if pos >= max {
        return;
      }
      var room: loff_t := max - pos;
      allowed := room;
    }
    sent := Asked(pos, allowed);
    retval, pos' := SendOp(pos, allowed, max, requested, answer);
    if pos' > max {
      retval := EOVERFLOW;
    }
  }

  function Limit(inFile: OpenFile, outFile: OpenFile, max: loff_t): loff_t {
    if max == 0 then Min(inFile.maxBytes, outFile.maxBytes) else max
  }

  // The error of the first check of the in file that fails; 0 when it may be read from `at`.
  function InRefused(inFile: OpenFile, own: bool, at: loff_t, count: size_t, a: Answer): (r: int)
    ensures r <= 0
    ensures r == 0 <==>
      && inFile.mode.read && inFile.hasOps && inFile.ops.sendfile && (own ==> inFile.mode.pread)
      && count < TWO_31 && 0 <= at && at + count < TWO_63 && a.lock == 0 && a.permission == 0
    ensures !inFile.mode.read ==> r == EBADF
    ensures inFile.mode.read && !(inFile.hasOps && inFile.ops.sendfile) ==> r == EINVAL
    ensures inFile.mode.read && inFile.hasOps && inFile.ops.sendfile ==>
      r == if own && !inFile.mode.pread then ESPIPE
           else if count >= TWO_31 || at < 0 || at + count >= TWO_63 then EINVAL
           else if a.lock < 0 then a.lock else a.permission
  {
    if !inFile.mode.read then EBADF
    else if !inFile.hasOps || !inFile.ops.sendfile then EINVAL
    else if own && !inFile.mode.pread then ESPIPE
    else if VerifyArea(at, count, a.lock) < 0 then VerifyArea(at, count, a.lock)
    else a.permission
  }

  // The same for the out file, which is checked at its own position.
  function OutRefused(outFile: OpenFile, pos: loff_t, count: size_t, b: Answer): (r: int)
    ensures r <= 0
    ensures r == 0 <==>
      && outFile.mode.write && outFile.hasOps && outFile.ops.sendpage
      && count < TWO_31 && 0 <= pos && pos + count < TWO_63 && b.lock == 0 && b.permission == 0
    ensures !outFile.mode.write ==> r == EBADF
    ensures outFile.mode.write && !(outFile.hasOps && outFile.ops.sendpage) ==> r == EINVAL
    ensures outFile.mode.write && outFile.hasOps && outFile.ops.sendpage ==>
      r == if count >= TWO_31 || pos < 0 || pos + count >= TWO_63 then EINVAL
           else if b.lock < 0 then b.lock else b.permission
  {
    if !outFile.mode.write then EBADF
    else if !outFile.hasOps || !outFile.ops.sendpage then EINVAL
    else if VerifyArea(pos, count, b.lock) < 0 then VerifyArea(pos, count, b.lock)
    else b.permission
  }

  // The range is inside the limit, or can be cut to it.
  predicate InReach(at: int, count: int, max: int) {
    at + count <= max || at < max
  }

  // A range inside both file systems' limits, or inside the caller's limit; shorter than `wanted` only
  // to end exactly at one of them.
  predicate Bounded(inFile: OpenFile, outFile: OpenFile, max: loff_t, at: int, count: int, wanted: int) {
    if max == 0 then
      && at + count <= inFile.maxBytes && at + count <= outFile.maxBytes
      && (count == wanted
          || (count < wanted && (at + count == inFile.maxBytes || at + count == outFile.maxBytes)))
    else
      at + count <= max && (count == wanted || (count < wanted && at + count == max))
  }

  // What the operation returns when it is asked for n bytes.
  function SentOf(answer: ssize_t, n: nat): int {
    if answer < 0 then answer else Min(answer, n)
  }

  // The out file is held: its checks, then the transfer from `at`.
  method SendTo(outFile: OpenFile, inFile: OpenFile, at: loff_t, count: size_t, max: loff_t, requested: size_t,
                b: Answer, answer: ssize_t)
    returns (retval: int, at': loff_t, sent: Sent)
    requires inFile.Valid() && outFile.Valid() && 0 <= max
    requires 0 <= at && at + count < TWO_63 && count <= requested && count <= MAX_RW_COUNT
    ensures at' == if retval >= 0 then at + retval else at
    ensures sent.NotAsked? ==> retval < 0
    ensures sent.Asked? <==>
      OutRefused(outFile, outFile.pos, count, b) == 0 && InReach(at, count, Limit(inFile, outFile, max))
    ensures sent.NotAsked? ==>
      var refused := OutRefused(outFile, outFile.pos, count, b);
      retval == if refused < 0 then refused else EOVERFLOW
    ensures sent.Asked? ==>
      sent.pos == at && sent.count <= requested && at + sent.count <= Limit(inFile, outFile, max)
    ensures sent.Asked? ==> sent.count == Clamp(at, count, Limit(inFile, outFile, max))
    ensures sent.Asked? ==> retval == SentOf(answer, sent.count)
    // within both file systems' limits, or the caller's; cut only to end exactly there
    ensures sent.Asked? ==> Bounded(inFile, outFile, max, at, sent.count, count)
  {
    retval, at', sent := EBADF, at, NotAsked;
    if !outFile.mode.write {
      return;
    }
    retval := EINVAL;
    if !outFile.hasOps || !outFile.ops.sendpage {
      return;
    }
    retval := VerifyArea(outFile.pos, count, b.lock);
    if retval < 0 {
      return;
    }
    var allowed := retval;
    retval := b.permission;
    if retval != 0 {
      return;
    }
    retval, at', sent := Send(at, allowed, Limit(inFile, outFile, max), requested, answer);
  }

  // When the operation is asked, both files being there: each file's checks passed, and the range can be
  // cut to the limit.
  ghost predicate Granted(outFile: OpenFile, inFile: OpenFile, own: bool, at: loff_t, count: size_t, max: loff_t,
                          a: Answer, b: Answer)
    reads outFile
  {
    && InRefused(inFile, own, at, count, a) == 0
    && OutRefused(outFile, outFile.pos, Min(count, MAX_RW_COUNT), b) == 0
    && InReach(at, Min(count, MAX_RW_COUNT), Limit(inFile, outFile, max))
  }

  // The error when it is not.
  ghost function FirstRefusal(outFile: OpenFile?, inFile: OpenFile, own: bool, at: loff_t, count: size_t, max: loff_t,
                              a: Answer, b: Answer): (r: int)
    reads outFile
  {
    if InRefused(inFile, own, at, count, a) < 0 then InRefused(inFile, own, at, count, a)
    else if outFile == null then EBADF
    else if OutRefused(outFile, outFile.pos, Min(count, MAX_RW_COUNT), b) < 0
    then OutRefused(outFile, outFile.pos, Min(count, MAX_RW_COUNT), b)
    else EOVERFLOW
  }

  // The in file is held: its checks, then the out file.
  method SendFrom(refs: References, outFile: OpenFile?, inFile: OpenFile, own: bool, at: loff_t,
                  count: size_t, max: loff_t, a: Answer, b: Answer)
    returns (retval: int, at': loff_t, sent: Sent)
    requires inFile.Valid() && 0 <= max
    requires outFile != null ==> outFile.Valid()
    modifies refs
    ensures refs.held == old(refs.held)
    ensures at' == if retval >= 0 then at + retval else at
    ensures retval >= 0 ==> 0 <= at'
    ensures sent.NotAsked? ==> retval < 0
    ensures sent.Asked? <==> outFile != null && Granted(outFile, inFile, own, at, count, max, a, b)
    ensures sent.NotAsked? ==> retval == FirstRefusal(outFile, inFile, own, at, count, max, a, b)
    ensures sent.Asked? ==>
      sent.pos == at && sent.count <= count && at + sent.count <= Limit(inFile, outFile, max)
    ensures sent.Asked? ==> sent.count == Clamp(at, Min(count, MAX_RW_COUNT), Limit(inFile, outFile, max))
    ensures sent.Asked? ==> retval == SentOf(a.result, sent.count)
    ensures sent.Asked? ==> Bounded(inFile, outFile, max, at, sent.count, Min(count, MAX_RW_COUNT))
  {
    retval, at', sent := EBADF, at, NotAsked;
    if !inFile.mode.read {
      return;
    }
    retval := EINVAL;
    if !inFile.hasOps || !inFile.ops.sendfile {
      return;
    }
    retval := ESPIPE;
    if own && !inFile.mode.pread {
      return;
    }
    retval := VerifyArea(at, count, a.lock);
    if retval < 0 {
      return;
    }
    var allowed := retval;
    retval := a.permission;
    if retval != 0 {
      return;
    }
    retval := EBADF;
    var got := refs.Get(outFile);
    if !got {
      return;
    }
    retval, at', sent := SendTo(outFile, inFile, at, allowed, max, count, b, a.result);
    refs.Put(outFile);
  }

  // do_sendfile. `own` is the caller's position, when it has one; otherwise the in file's is used and moved.
  method DoSendfile(refs: References, outFile: OpenFile?, inFile: OpenFile?, own: bool, pos: loff_t,
                    count: size_t, max: loff_t, a: Answer, b: Answer)
    returns (retval: int, pos': loff_t, sent: Sent)
    requires inFile != null ==> inFile.Valid()
    requires outFile != null ==> outFile.Valid()
    requires 0 <= max
    modifies refs, (if inFile != null then {inFile} else {})`pos
    // every file acquired is released exactly once, whatever path is taken
    ensures refs.held == old(refs.held)
    ensures inFile != null ==> inFile.Valid()
    ensures sent.Asked? <==>
      inFile != null && outFile != null &&
      old(Granted(outFile, inFile, own, if own then pos else inFile.pos, count, max, a, b))
    ensures sent.NotAsked? ==>
      retval == if inFile == null then EBADF
                else old(FirstRefusal(outFile, inFile, own, if own then pos else inFile.pos, count, max, a, b))
    ensures sent.Asked? ==>
      && sent.count == Clamp(sent.pos, Min(count, MAX_RW_COUNT), Limit(inFile, outFile, max))
      && retval == SentOf(a.result, sent.count)
    ensures sent.Asked? ==>
      && 0 <= sent.pos && sent.pos + sent.count <= Limit(inFile, outFile, max) && sent.count <= count
      && sent.pos == if own then pos else old(inFile.pos)
    ensures sent.NotAsked? ==> retval < 0
    // the limits, in the files' own terms
    ensures sent.Asked? && max == 0 ==>
      sent.pos + sent.count <= inFile.maxBytes && sent.pos + sent.count <= outFile.maxBytes
    ensures sent.Asked? && max != 0 ==> sent.pos + sent.count <= max
    ensures sent.Asked? ==>
      var wanted := if count > 0x7FFF_F000 then 0x7FFF_F000 else count;
      || sent.count == wanted
      || (sent.count < wanted && max != 0 && sent.pos + sent.count == max)
      || (sent.count < wanted && max == 0
          && (sent.pos + sent.count == inFile.maxBytes || sent.pos + sent.count == outFile.maxBytes))
    ensures sent.Asked? ==>
      retval == if a.result < 0 then a.result else if a.result <= sent.count then a.result else sent.count
    // when both files pass their checks, only a range that passes a bound from at or beyond it is refused
    ensures inFile != null && outFile != null ==>
      var at := if own then pos else old(inFile.pos);
      var wanted := if count > 0x7FFF_F000 then 0x7FFF_F000 else count;
      InRefused(inFile, own, at, count, a) == 0 && old(OutRefused(outFile, outFile.pos, wanted, b)) == 0 ==>
        && (sent.NotAsked? <==>
              if max != 0 then at >= max && at + wanted > max
              else || (at >= inFile.maxBytes && at + wanted > inFile.maxBytes)
                   || (at >= outFile.maxBytes && at + wanted > outFile.maxBytes))
        && (sent.NotAsked? ==> retval == -75)
    ensures own && inFile != null ==> inFile.pos == old(inFile.pos)
    ensures own ==> pos' == if retval >= 0 then pos + retval else pos
    ensures !own && inFile != null ==> inFile.pos == if retval >= 0 then old(inFile.pos) + retval else old(inFile.pos)
  {
    sent, pos', retval := NotAsked, pos, EBADF;
    var got := refs.Get(inFile);
    if !got {
      return;
    }
    var at := if own then pos else inFile.pos;
    retval, at, sent := SendFrom(refs, outFile, inFile, own, at, count, max, a, b);
    if own {
      pos' := at;
    } else {
      inFile.pos := at;
    }
    refs.Put(inFile);
  }
}
