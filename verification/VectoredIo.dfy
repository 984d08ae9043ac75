// Vectored reads and writes: one file operation per segment, and the segment vector's memory.

module VectoredIo {
  import opened Bytes
  import opened Words
  import opened Iovecs
  import opened OpenFiles

  // Lists of addresses -------------------------------------------------------------------------

  ghost predicate Within(addresses: seq<nat>, size: nat) {
    forall q :: 0 <= q < |addresses| ==> addresses[q] < size
  }

  ghost predicate Distinct(addresses: seq<nat>) {
    forall p, q :: 0 <= p < q < |addresses| ==> addresses[p] != addresses[q]
  }

  // The bytes at these addresses.
  ghost function Pick(mem: seq<byte>, addresses: seq<nat>): (r: seq<byte>)
    requires Within(addresses, |mem|)
    ensures |r| == |addresses|
  {
    seq(|addresses|, q requires 0 <= q < |addresses| => mem[addresses[q]])
  }

  // Memory differs at these addresses only.
  ghost predicate OnlyAt(before: seq<byte>, after: seq<byte>, addresses: seq<nat>) {
    |after| == |before| &&
    forall x :: 0 <= x < |before| && x !in addresses ==> after[x] == before[x]
  }

  // From the n-th on, m addresses in a row follow each other.
  ghost predicate Run(addresses: seq<nat>, n: nat, m: nat, base: nat) {
    n + m <= |addresses| && forall q :: n <= q < n + m ==> addresses[q] == base + (q - n)
  }

  lemma RunCovers(addresses: seq<nat>, n: nat, m: nat, base: nat, x: nat)
    requires Run(addresses, n, m, base) && base <= x < base + m
    ensures addresses[n + (x - base)] == x
  {
  }

  lemma ShorterRun(addresses: seq<nat>, n: nat, m: nat, base: nat)
    requires Run(addresses, n, m, base)
    ensures forall j :: 0 <= j <= m ==> Run(addresses, n, j, base)
  {
  }

  // Storing bytes at the next addresses leaves what was picked before and adds them to it.
  lemma PickMore(mem: seq<byte>, addresses: seq<nat>, n: nat, base: nat, bytes: seq<byte>)
    requires Within(addresses, |mem|) && Run(addresses, n, |bytes|, base) && base + |bytes| <= |mem|
    requires Distinct(addresses[..n + |bytes|])
    ensures Within(addresses[..n], |mem|) && Within(addresses[..n + |bytes|], |mem|)
    ensures Pick(Splice(mem, base, bytes), addresses[..n + |bytes|]) == Pick(mem, addresses[..n]) + bytes
  {
    var after, picked, used := Splice(mem, base, bytes), Pick(mem, addresses[..n]) + bytes, addresses[..n + |bytes|];
    forall q | 0 <= q < n + |bytes|
      ensures after[used[q]] == picked[q]
    {
      if q < n {
        if base <= used[q] < base + |bytes| {
          RunCovers(used, n, |bytes|, base, used[q]);
        }
      }
    }
  }

  lemma OnlyAtMore(before: seq<byte>, mem: seq<byte>, addresses: seq<nat>, n: nat, base: nat, bytes: seq<byte>)
    requires Run(addresses, n, |bytes|, base) && base + |bytes| <= |mem|
    requires OnlyAt(before, mem, addresses[..n])
    ensures OnlyAt(before, Splice(mem, base, bytes), addresses[..n + |bytes|])
  {
    var after, more := Splice(mem, base, bytes), addresses[..n + |bytes|];
    forall x | 0 <= x < |before| && x !in more
      ensures after[x] == before[x]
    {
      assert more[..n] == addresses[..n];
      assert x !in addresses[..n];
      if base <= x < base + |bytes| {
        RunCovers(more, n, |bytes|, base, x);
      }
    }
  }

  // The addresses of the k-th segment follow those of the segments before it.
  lemma {:induction false} SegmentRun(v: seq<Iovec>, k: nat)
    requires k < |v|
    ensures Run(Stream(v), Total(v[..k]), v[k].len, v[k].base)
  {
    if k > 0 {
      SegmentRun(v[1..], k - 1);
      assert v[..k][1..] == v[1..][..k - 1];
    }
  }

  lemma {:induction false} StreamWithin(v: seq<Iovec>, size: nat)
    requires forall s <- v :: s.base + s.len <= size
    ensures Within(Stream(v), size)
  {
    if v != [] {
      assert v[0] in v;
      assert forall s <- v[1..] :: s in v;
      StreamWithin(v[1..], size);
    }
  }

  // Writing behind what was written is writing both at once.
  lemma OverlayTwice(data: seq<byte>, pos: nat, a: seq<byte>, b: seq<byte>)
    ensures Overlay(Overlay(data, pos, a), pos + |a|, b) == Overlay(data, pos, a + b)
  {
    hide Overlay;
    var once, first := Overlay(data, pos, a + b), Overlay(data, pos, a);
    var twice := Overlay(first, pos + |a|, b);
    if a == [] {
      assert a + b == b;
      OverlayNothing(data, pos);
    } else if b == [] {
      assert a + b == a;
      OverlayNothing(first, pos + |a|);
    } else {
      forall i | 0 <= i < |twice|
        ensures twice[i] == once[i]
      {
        if pos <= i < pos + |a| {
          assert first[pos + (i - pos)] == a[i - pos];
          assert once[pos + (i - pos)] == (a + b)[i - pos];
        } else if pos + |a| <= i < pos + |a| + |b| {
          assert twice[pos + |a| + (i - pos - |a|)] == b[i - pos - |a|];
          assert once[pos + (i - pos)] == (a + b)[i - pos];
        }
      }
    }
  }

  lemma OverlayNothing(data: seq<byte>, pos: nat)
    ensures Overlay(data, pos, []) == data
  {
  }

  // What is read from behind what was read is read from one longer range.
  lemma RangeTwice(data: seq<byte>, pos: nat, n: nat, m: nat)
    requires |Range(data, pos, n)| == n
    ensures Range(data, pos, n) + Range(data, pos + n, m) == Range(data, pos, n + m)
  {
  }

  // Transfers ----------------------------------------------------------------------------------

  // The file from pos on and the bytes at these addresses were made to agree, in the direction asked
  // for, and nothing else changed. (Where a read stores twice at one address, the later byte stays.)
  ghost predicate Transferred(read: bool, mem0: seq<byte>, mem: seq<byte>, data0: seq<byte>, data: seq<byte>,
                              pos: nat, addresses: seq<nat>)
  {
    && Within(addresses, |mem0|) && |mem| == |mem0|
    && if read then
         && data == data0 && OnlyAt(mem0, mem, addresses)
         && |Range(data0, pos, |addresses|)| == |addresses|
         && (Distinct(addresses) ==> Pick(mem, addresses) == Range(data0, pos, |addresses|))
       else
         mem == mem0 && data == Overlay(data0, pos, Pick(mem0, addresses))
  }

  lemma NothingTransferred(read: bool, mem: seq<byte>, data: seq<byte>, pos: nat)
    ensures Transferred(read, mem, mem, data, data, pos, [])
  {
    OverlayNothing(data, pos);
  }

  lemma TransferredNothing(read: bool, mem0: seq<byte>, mem: seq<byte>, data0: seq<byte>, data: seq<byte>, pos: nat)
    requires Transferred(read, mem0, mem, data0, data, pos, [])
    ensures mem == mem0 && data == data0
  {
    OverlayNothing(data0, pos);
    assert Pick(mem0, []) == [];
  }

  lemma ReadMore(mem0: seq<byte>, mem: seq<byte>, data0: seq<byte>, data: seq<byte>, pos: nat,
                 addresses: seq<nat>, n: nat, nr: nat, base: nat)
    requires Within(addresses, |mem0|) && n <= |addresses|
    requires Transferred(true, mem0, mem, data0, data, pos, addresses[..n])
    requires Run(addresses, n, nr, base) && base + nr <= |mem| && |Range(data, pos + n, nr)| == nr
    ensures Transferred(true, mem0, Splice(mem, base, Range(data, pos + n, nr)), data0, data, pos, addresses[..n + nr])
  {
    hide Range, Splice, Pick, OnlyAt;
    var bytes := Range(data, pos + n, nr);
    OnlyAtMore(mem0, mem, addresses, n, base, bytes);
    RangeTwice(data, pos, n, nr);
    if Distinct(addresses[..n + nr]) {
      assert addresses[..n] == addresses[..n + nr][..n];
      DistinctPrefix(addresses[..n + nr], n);
      PickMore(mem, addresses, n, base, bytes);
    }
  }

  lemma DistinctPrefix(addresses: seq<nat>, n: nat)
    requires Distinct(addresses) && n <= |addresses|
    ensures Distinct(addresses[..n])
  {
  }

  lemma WriteMore(mem0: seq<byte>, mem: seq<byte>, data0: seq<byte>, data: seq<byte>, pos: nat,
                  addresses: seq<nat>, n: nat, nr: nat, base: nat)
    requires Within(addresses, |mem0|) && n <= |addresses|
    requires Transferred(false, mem0, mem, data0, data, pos, addresses[..n])
    requires Run(addresses, n, nr, base) && base + nr <= |mem|
    ensures Transferred(false, mem0, mem, data0, Overlay(data, pos + n, mem[base..base + nr]), pos, addresses[..n + nr])
  {
    hide Overlay, Pick;
    OverlayTwice(data0, pos, Pick(mem, addresses[..n]), mem[base..base + nr]);
    PickRun(mem, addresses, n, nr, base);
  }

  lemma PickRun(mem: seq<byte>, addresses: seq<nat>, n: nat, nr: nat, base: nat)
    requires Within(addresses, |mem|) && Run(addresses, n, nr, base) && base + nr <= |mem|
    ensures Pick(mem, addresses[..n + nr]) == Pick(mem, addresses[..n]) + mem[base..base + nr]
  {
  }

  // The call of the file operation for the k-th segment.
  method TransferSegment(read: bool, file: OpenFile, mem: array<byte>, v: seq<Iovec>, k: nat, answer: ssize_t,
                         pos: loff_t, ghost pos0: nat, ghost mem0: seq<byte>, ghost data0: seq<byte>)
    returns (nr: int, pos': loff_t)
    requires file.Valid() && k < |v| && |mem0| == mem.Length
    requires forall s <- v :: s.base + s.len <= mem.Length
    requires Total(v[..k]) + v[k].len <= Total(v) && pos0 + Total(v) < TWO_63
    requires pos == pos0 + Total(v[..k])
    requires Transferred(read, mem0, mem[..], data0, file.data, pos0, Stream(v)[..Total(v[..k])])
    modifies mem, file`data
    ensures file.Valid()
    ensures nr == Moved(read, answer, v[k].len, |old(file.data)|, pos)
    ensures read ==> file.data == old(file.data)
    ensures nr < 0 ==> nr == answer && pos' == pos && mem[..] == old(mem[..]) && file.data == old(file.data)
    ensures nr >= 0 ==> nr <= v[k].len && pos' == pos + nr
    ensures nr >= 0 ==> Transferred(read, mem0, mem[..], data0, file.data, pos0, Stream(v)[..Total(v[..k]) + nr])
  {
    hide Transferred, Stream, Total, Overlay, Range, Splice, Distinct;
    assert v[k] in v;
    SegmentRun(v, k);
    ShorterRun(Stream(v), Total(v[..k]), v[k].len, v[k].base);
    StreamWithin(v, mem.Length);
    var base, len := v[k].base, v[k].len;
    ghost var before, data := mem[..], file.data;
    if read {
      nr, pos' := ReadOp(file, mem, base, len, pos, answer);
      if nr >= 0 {
        ReadMore(mem0, before, data0, data, pos0, Stream(v), Total(v[..k]), nr, base);
      }
    } else {
      nr, pos' := WriteOp(file, mem, base, len, pos, answer);
      if nr >= 0 {
        WriteMore(mem0, before, data0, data, pos0, Stream(v), Total(v[..k]), nr, base);
      }
    }
  }

  // What the calls returned: all but the last transferred their whole segment, and the loop went on
  // as long as they did.
  ghost predicate Calls(v: seq<Iovec>, results: seq<int>) {
    && |results| <= |v|
    && (forall k :: 0 <= k < |results| - 1 ==> results[k] == v[k].len)
    && (0 < |results| < |v| ==> results[|results| - 1] != v[|results| - 1].len)
    && (results == [] ==> v == [])
  }

  // What the file operation returns for segment k when the segments before it were transferred whole.
  function ResultAt(read: bool, v: seq<Iovec>, answers: seq<ssize_t>, k: nat, size: nat, pos: nat): int
    requires k < |v| == |answers|
  {
    Moved(read, answers[k], v[k].len, size, pos + Total(v[..k]))
  }

  // The operation was called segment by segment and this is what it returned.
  ghost predicate CallsReturn(read: bool, v: seq<Iovec>, answers: seq<ssize_t>, size: nat, pos: nat, results: seq<int>)
    requires |v| == |answers|
  {
    && Calls(v, results)
    && forall k :: 0 <= k < |results| ==> results[k] == ResultAt(read, v, answers, k, size, pos)
  }

  // The answers determine which calls are made.
  lemma CallsOnce(read: bool, v: seq<Iovec>, answers: seq<ssize_t>, size: nat, pos: nat, r: seq<int>, r': seq<int>)
    requires |v| == |answers|
    requires CallsReturn(read, v, answers, size, pos, r) && CallsReturn(read, v, answers, size, pos, r')
    ensures r == r'
  {
    hide ResultAt;
  }

  // Every answer covers its segment.
  ghost predicate AllCovered(read: bool, v: seq<Iovec>, answers: seq<ssize_t>, size: nat, pos: nat)
    requires |v| == |answers|
  {
    forall k :: 0 <= k < |v| ==> ResultAt(read, v, answers, k, size, pos) == v[k].len
  }

  // What the loop makes of its calls' results: their sum, or the error of the first.
  ghost function Outcome(v: seq<Iovec>, results: seq<int>): int
    requires Calls(v, results)
  {
    if results == [] then 0
    else
      var last := results[|results| - 1];
      if last >= 0 then Before(v, results) + last
      else if Before(v, results) == 0 then last else Before(v, results)
  }

  // What the loop returns, from the results one by one: their sum, without the last where that is an
  // error, and the error itself only when nothing was transferred before it.
  lemma OutcomeSums(v: seq<Iovec>, results: seq<int>)
    requires Calls(v, results)
    ensures results == [] ==> Outcome(v, results) == 0
    ensures results != [] ==>
      var before, last := Sum(results[..|results| - 1]), results[|results| - 1];
      Outcome(v, results) == if last >= 0 then before + last else if before == 0 then last else before
  {
    hide Total;
    if results != [] {
      SumTotal(v[..|results| - 1], results[..|results| - 1]);
    }
  }

  function Sum(results: seq<int>): int {
    if results == [] then 0 else results[0] + Sum(results[1..])
  }

  lemma {:induction false} SumTotal(v: seq<Iovec>, results: seq<int>)
    requires |v| == |results| && forall k :: 0 <= k < |results| ==> results[k] == v[k].len
    ensures Sum(results) == Total(v)
  {
    if results != [] {
      SumTotal(v[1..], results[1..]);
    }
  }

  // The bytes transferred before the last call.
  ghost function Before(v: seq<Iovec>, results: seq<int>): nat
    requires Calls(v, results) && results != []
  {
    Total(v[..|results| - 1])
  }

  lemma TotalNothing()
    ensures Total([]) == 0
  {
  }

  // A write does not depend on the file's size.
  lemma SizeUnread(read: bool, answer: ssize_t, len: nat, a: nat, b: nat, pos: nat)
    requires read ==> a == b
    ensures Moved(read, answer, len, a, pos) == Moved(read, answer, len, b, pos)
  {
  }

  // The calls so far each transferred their whole segment.
  ghost predicate AllWhole(read: bool, v: seq<Iovec>, answers: seq<ssize_t>, size: nat, pos: nat, results: seq<int>)
    requires |v| == |answers|
  {
    && |results| <= |v|
    && forall k :: 0 <= k < |results| ==>
         results[k] == v[k].len && results[k] == ResultAt(read, v, answers, k, size, pos)
  }

  lemma WholeNext(read: bool, v: seq<Iovec>, answers: seq<ssize_t>, size: nat, pos: nat, results: seq<int>)
    requires |v| == |answers| && |results| < |v| && AllWhole(read, v, answers, size, pos, results)
    requires ResultAt(read, v, answers, |results|, size, pos) == v[|results|].len
    ensures AllWhole(read, v, answers, size, pos, results + [v[|results|].len])
  {
    hide ResultAt;
  }

  lemma WholeNothing(read: bool, v: seq<Iovec>, answers: seq<ssize_t>, size: nat, pos: nat)
    requires |v| == |answers|
    ensures AllWhole(read, v, answers, size, pos, [])
  {
  }

  // A call that does not is the last.
  lemma WholeStops(read: bool, v: seq<Iovec>, answers: seq<ssize_t>, size: nat, pos: nat, results: seq<int>, nr: int)
    requires |v| == |answers| && |results| < |v| && AllWhole(read, v, answers, size, pos, results)
    requires nr == ResultAt(read, v, answers, |results|, size, pos) != v[|results|].len
    ensures CallsReturn(read, v, answers, size, pos, results + [nr]) && !AllCovered(read, v, answers, size, pos)
    ensures var before := Total(v[..|results|]);
      Outcome(v, results + [nr]) == if nr >= 0 then before + nr else if before == 0 then nr else before
  {
    hide ResultAt, Total;
  }

  lemma WholeEnds(read: bool, v: seq<Iovec>, answers: seq<ssize_t>, size: nat, pos: nat, results: seq<int>)
    requires |v| == |answers| == |results| && AllWhole(read, v, answers, size, pos, results)
    ensures CallsReturn(read, v, answers, size, pos, results) && Outcome(v, results) == Total(v)
  {
    hide ResultAt, Total;
    TotalNothing();
    if v != [] {
      TotalNext(v, |v| - 1);
      assert v[..|v|] == v;
    }
  }

  // do_loop_readv_writev: one call per segment refines one transfer between the file and the
  // concatenated segments. The caller has checked the segments, so their total is a ssize_t.
  method DoLoopReadvWritev(read: bool, file: OpenFile, mem: array<byte>, v: seq<Iovec>, pos0: loff_t,
                           answers: seq<ssize_t>)
    returns (ret: ssize_t, pos: loff_t, results: seq<int>)
    requires file.Valid() && 0 <= pos0 && |answers| == |v|
    requires forall s <- v :: s.base + s.len <= mem.Length
    requires Total(v) < TWO_31 && pos0 + Total(v) < TWO_63
    modifies mem, file`data
    ensures file.Valid()
    ensures ret >= 0 ==> ret <= Total(v) && pos == pos0 + ret
    ensures ret >= 0 ==>
      Transferred(read, old(mem[..]), mem[..], old(file.data), file.data, pos0, Stream(v)[..ret])
    ensures ret < 0 ==> pos == pos0 && mem[..] == old(mem[..]) && file.data == old(file.data)
    ensures CallsReturn(read, v, answers, |old(file.data)|, pos0, results)
    ensures ret == Outcome(v, results)
    ensures AllCovered(read, v, answers, |old(file.data)|, pos0) ==> ret == Total(v)
  {
    hide Transferred, Stream, Total, Distinct, Moved, AllCovered, Overlay, AllWhole, CallsReturn, Outcome;
    ghost var size := |file.data|;
    TotalNothing();
    ret, pos, results := 0, pos0, [];
    NothingTransferred(read, mem[..], file.data, pos0);
    assert Stream(v)[..0] == [];
    WholeNothing(read, v, answers, size, pos0);
    var i := 0;
    while i < |v|
      invariant 0 <= i <= |v| && |results| == i
      invariant file.Valid()
      invariant ret == Total(v[..i]) <= Total(v) && pos == pos0 + ret
      invariant Transferred(read, old(mem[..]), mem[..], old(file.data), file.data, pos0, Stream(v)[..ret])
      invariant AllWhole(read, v, answers, size, pos0, results)
      invariant read ==> |file.data| == size
    {
      TotalNext(v, i);
      SegmentRun(v, i);
      assert Stream(v)[..0] == [];
      var nr;
      SizeUnread(read, answers[i], v[i].len, size, |file.data|, pos);
      nr, pos := TransferSegment(read, file, mem, v, i, answers[i], pos, pos0, old(mem[..]), old(file.data));
      if nr != v[i].len {
        WholeStops(read, v, answers, size, pos0, results, nr);
      } else {
        WholeNext(read, v, answers, size, pos0, results);
      }
      results := results + [nr];
      if nr < 0 {
        if ret == 0 {
          TransferredNothing(read, old(mem[..]), mem[..], old(file.data), file.data, pos0);
          ret := nr;
        }
        return;
      }
      ret := Signed32(ret + nr);
      if nr != v[i].len {
        return;
      }
      i := i + 1;
    }
    assert v[..i] == v;
    WholeEnds(read, v, answers, size, pos0, results);
  }
}
