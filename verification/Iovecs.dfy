// Segment vectors: their check on the way in and their shortening in place, in 32-bit arithmetic.

module Iovecs {
  import opened Words

  datatype Iovec = Iovec(base: size_t, len: size_t)

  const UIO_MAXIOV := 1024
  const UIO_FASTIOV := 8

  // The true length of a vector, and the addresses it describes, in order.
  function Total(v: seq<Iovec>): nat {
    if v == [] then 0 else v[0].len + Total(v[1..])
  }

  function Addresses(segment: Iovec): (s: seq<nat>)
    ensures |s| == segment.len
  {
    seq(segment.len, i => segment.base + i)
  }

  function Stream(v: seq<Iovec>): (s: seq<nat>)
    ensures |s| == Total(v)
  {
    if v == [] then [] else Addresses(v[0]) + Stream(v[1..])
  }

  lemma {:induction false} TotalConcat(a: seq<Iovec>, b: seq<Iovec>)
    ensures Total(a + b) == Total(a) + Total(b)
  {
    if a == [] {
      assert a + b == b;
    } else {
      assert (a + b)[1..] == a[1..] + b;
      TotalConcat(a[1..], b);
    }
  }

  lemma TotalNext(v: seq<Iovec>, i: nat)
    requires i < |v|
    ensures Total(v[..i + 1]) == Total(v[..i]) + v[i].len
    ensures Total(v[..i]) <= Total(v)
  {
    assert v[..i + 1] == v[..i] + [v[i]];
    TotalConcat(v[..i], [v[i]]);
    assert v == v[..i] + v[i..];
    TotalConcat(v[..i], v[i..]);
  }

  // Shortening ---------------------------------------------------------------------------------

  // The segments iov_shorten returns for the rest v of a vector, `len` bytes having been counted:
  // the running sum is a size_t and wraps.
  function Shorten(v: seq<Iovec>, len: size_t, to: size_t): (r: seq<Iovec>)
    requires len <= to
    ensures |r| <= |v|
  {
    if v == [] then []
    else
      var sum := Unsigned32(len + v[0].len);
      if sum >= to then [v[0].(len := to - len)]
      else [v[0]] + Shorten(v[1..], sum, to)
  }

  lemma ShortenNext(v: seq<Iovec>, k: nat, len: size_t, to: size_t)
    requires k < |v| && len <= to
    ensures var sum := Unsigned32(len + v[k].len);
      v[..k] + Shorten(v[k..], len, to) ==
        if sum >= to then v[..k] + [v[k].(len := to - len)] else v[..k + 1] + Shorten(v[k + 1..], sum, to)
  {
    assert v[k..][1..] == v[k + 1..];
    assert v[..k + 1] == v[..k] + [v[k]];
  }

  lemma ShortenNothing(len: size_t, to: size_t)
    requires len <= to
    ensures Shorten([], len, to) == []
  {
  }

  method IovShorten(iov: array<Iovec>, nrSegs: nat, to: size_t) returns (seg: nat)
    requires nrSegs <= iov.Length
    modifies iov
    ensures seg <= nrSegs && iov[..seg] == Shorten(old(iov[..nrSegs]), 0, to)
    ensures iov[seg..] == old(iov[seg..])
    // at most the last segment returned is shortened
    ensures forall i :: 0 <= i < seg - 1 ==> iov[i] == old(iov[i])
  {
    hide Shorten;
    seg := 0;
    var len: size_t := 0;
    ghost var v := iov[..nrSegs];
    while seg < nrSegs
      invariant seg <= nrSegs && len <= to
      invariant forall k :: 0 <= k < iov.Length ==> iov[k] == old(iov[k])
      invariant Shorten(v, 0, to) == v[..seg] + Shorten(v[seg..], len, to)
    {
      ShortenNext(v, seg, len, to);
      var sum := Unsigned32(len + iov[seg].len);
      seg := seg + 1;
      if sum >= to {
        var cut := iov[seg - 1].(len := to - len);
        iov[seg - 1] := cut;
        assert iov[..seg] == v[..seg - 1] + [cut];
        return;
      }
      len := sum;
    }
    ShortenNothing(len, to);
    assert v[seg..] == [];
  }

  // No segment that starts before `to` ends beyond what a size_t holds.
  predicate SumsFit(v: seq<Iovec>, before: nat, to: size_t) {
    v == [] || before >= to || (before + v[0].len < TWO_32 && SumsFit(v[1..], before + v[0].len, to))
  }

  lemma {:induction false} ShortTotalsFit(v: seq<Iovec>, before: nat, to: size_t)
    requires before + Total(v) < TWO_32
    ensures SumsFit(v, before, to)
  {
    if v != [] {
      ShortTotalsFit(v[1..], before + v[0].len, to);
    }
  }

  lemma StreamOne(segment: Iovec)
    ensures Stream([segment]) == Addresses(segment)
  {
    assert [segment][1..] == [];
    assert Addresses(segment) + [] == Addresses(segment);
  }

  lemma StreamCons(segment: Iovec, v: seq<Iovec>)
    ensures Stream([segment] + v) == Addresses(segment) + Stream(v)
  {
    assert ([segment] + v)[1..] == v;
  }

  // The segment at which the count is reached.
  lemma ShortenHere(v: seq<Iovec>, len: size_t, to: size_t)
    requires v != [] && len <= to <= len + v[0].len && Unsigned32(len + v[0].len) >= to
    ensures Stream(Shorten(v, len, to)) == Stream(v)[..to - len]
  {
    StreamOne(v[0].(len := to - len));
    assert Addresses(v[0].(len := to - len)) == Addresses(v[0])[..to - len];
    assert Stream(v)[..to - len] == Addresses(v[0])[..to - len];
  }

  lemma TakeConcat<T>(a: seq<T>, b: seq<T>, k: nat)
    requires k <= |b|
    ensures (a + b)[..|a| + k] == a + b[..k]
  {
  }

  // A segment before that.
  lemma ShortenPast(v: seq<Iovec>, len: size_t, to: size_t)
    requires v != [] && len + v[0].len < to
    ensures Shorten(v, len, to) == [v[0]] + Shorten(v[1..], len + v[0].len, to)
    ensures var k := Min(to - len - v[0].len, Total(v[1..]));
      Stream(Shorten(v[1..], len + v[0].len, to)) == Stream(v[1..])[..k]
      ==> Stream(Shorten(v, len, to)) == Stream(v)[..v[0].len + k]
  {
    hide Stream, Addresses, Total;
    var rest, tail := Shorten(v[1..], len + v[0].len, to), v[1..];
    StreamCons(v[0], rest);
    StreamCons(v[0], tail);
    assert v == [v[0]] + tail;
    TakeConcat(Addresses(v[0]), Stream(tail), Min(to - len - v[0].len, Total(tail)));
  }

  lemma {:induction false} ShortenKeepsStream(v: seq<Iovec>, len: size_t, to: size_t)
    requires len < to || len == to == 0
    requires SumsFit(v, len, to)
    ensures Stream(Shorten(v, len, to)) == Stream(v)[..Min(to - len, Total(v))]
    ensures len + Total(v) < to ==> Shorten(v, len, to) == v
    decreases |v|
  {
    if v != [] {
      if len == to || len + v[0].len >= to {
        ShortenHere(v, len, to);
      } else {
        ShortenKeepsStream(v[1..], len + v[0].len, to);
        ShortenPast(v, len, to);
      }
    }
  }

  lemma {:induction false} ShortenTooLong(v: seq<Iovec>, len: size_t, to: size_t)
    requires len < to && !SumsFit(v, len, to)
    ensures Total(Shorten(v, len, to)) > to - len
    decreases |v|
  {
    var sum := Unsigned32(len + v[0].len);
    if len + v[0].len >= TWO_32 {
      assert sum == len + v[0].len - TWO_32;
      assert Shorten(v, len, to) == [v[0]] + Shorten(v[1..], sum, to);
    } else {
      ShortenTooLong(v[1..], sum, to);
    }
  }

  // What iov_shorten returns describes exactly the first min(to, total) bytes of the vector if and
  // only if no segment that starts before `to` ends beyond size_t.
  lemma ShortenExact(v: seq<Iovec>, to: size_t)
    ensures Stream(Shorten(v, 0, to)) == Stream(v)[..Min(to, Total(v))] <==> SumsFit(v, 0, to)
    ensures SumsFit(v, 0, to) && Total(v) < to ==> Shorten(v, 0, to) == v
  {
    if SumsFit(v, 0, to) {
      ShortenKeepsStream(v, 0, to);
    } else {
      ShortenTooLong(v, 0, to);
    }
  }

  // A vector whose total wraps: asked for 4 bytes, it returns all of its 2^32 + 1.
  lemma ShortenCanFail()
    ensures var v := [Iovec(0, 2), Iovec(0, TWO_32 - 1)];
      Total(v) == TWO_32 + 1 && Shorten(v, 0, 4) == v && !SumsFit(v, 0, 4)
  {
    var v := [Iovec(0, 2), Iovec(0, TWO_32 - 1)];
    assert v[1..] == [Iovec(0, TWO_32 - 1)];
    assert Total(v[1..]) == TWO_32 - 1;
    assert Shorten(v[1..], 2, 4) == v[1..];
  }

  // The check --------------------------------------------------------------------------------------

  // What the check must find at segment i: a length below 2^31, a sum so far below 2^31, an accessible range.
  ghost predicate SegmentOk(v: seq<Iovec>, i: nat, accessOk: (size_t, size_t) -> bool)
    requires i < |v|
  {
    v[i].len < TWO_31 && Total(v[..i + 1]) < TWO_31 && accessOk(v[i].base, v[i].len)
  }

  // The outcome of the check: the true total if every segment passes, the error of the first one that
  // does not otherwise.
  ghost predicate CheckedAs(v: seq<Iovec>, accessOk: (size_t, size_t) -> bool, ret: int) {
    if ret >= 0 then
      ret == Total(v) && forall i :: 0 <= i < |v| ==> SegmentOk(v, i, accessOk)
    else
      exists i ::
        && 0 <= i < |v| && !SegmentOk(v, i, accessOk)
        && (forall j :: 0 <= j < i ==> SegmentOk(v, j, accessOk))
        && ret == if v[i].len >= TWO_31 || Total(v[..i + 1]) >= TWO_31 then EINVAL else EFAULT
  }

  // Only one outcome fits a vector.
  lemma CheckedOnce(v: seq<Iovec>, accessOk: (size_t, size_t) -> bool, a: int, b: int)
    requires CheckedAs(v, accessOk, a) && CheckedAs(v, accessOk, b)
    ensures a == b
  {
  }

  // The loop of rw_copy_check_uvector: the sum is a ssize_t and wraps.
  method CheckVector(v: seq<Iovec>, accessOk: (size_t, size_t) -> bool) returns (ret: ssize_t)
    ensures CheckedAs(v, accessOk, ret)
    ensures ret >= 0 ==> Total(v) < TWO_31
  {
    ret := 0;
    for seg := 0 to |v|
      invariant 0 <= ret && ret == Total(v[..seg])
      invariant forall j :: 0 <= j < seg ==> SegmentOk(v, j, accessOk)
    {
      TotalNext(v, seg);
      var len := Signed32(v[seg].len);
      if len < 0 || Signed32(ret + len) < ret {
        assert !SegmentOk(v, seg, accessOk);
        return EINVAL;
      }
      if !accessOk(v[seg].base, v[seg].len) {
        assert !SegmentOk(v, seg, accessOk);
        return EFAULT;
      }
      ret := Signed32(ret + len);
    }
    assert v[..|v|] == v;
  }

  // A vector that passed the check is shortened exactly.
  lemma CheckedVectorShortens(v: seq<Iovec>, accessOk: (size_t, size_t) -> bool, ret: int, to: size_t)
    requires CheckedAs(v, accessOk, ret) && 0 <= ret < TWO_31
    ensures Stream(Shorten(v, 0, to)) == Stream(v)[..Min(to, ret)]
    ensures ret < to ==> Shorten(v, 0, to) == v
  {
    ShortTotalsFit(v, 0, to);
    ShortenExact(v, to);
  }
}
