// The transmit ring: memory 0x0000-0x0BFF, written from a wrapping pointer.

module TxRing {
  import opened Bytes
  import opened BusMode

  const TX_SIZE := 0x0C00

  // The address k bytes further round the ring.
  function TxAdd(p: nat, k: nat): (q: nat)
    requires p < TX_SIZE
    ensures q < TX_SIZE
  {
    (p + k) % TX_SIZE
  }

  // Memory after `bytes` were written one by one round the ring from p.
  function TxFill(mem: seq<byte>, p: nat, bytes: seq<byte>): (r: seq<byte>)
    requires |mem| == TX_SIZE && p < TX_SIZE
    ensures |r| == TX_SIZE
    decreases |bytes|
  {
    if bytes == [] then mem else TxFill(mem[p := bytes[0]], TxAdd(p, 1), bytes[1..])
  }

  lemma TxNothing(mem: seq<byte>, p: nat)
    requires |mem| == TX_SIZE && p < TX_SIZE
    ensures TxFill(mem, p, []) == mem && TxAdd(p, 0) == p
  {
  }

  lemma TxAddAdd(p: nat, a: nat, b: nat)
    requires p < TX_SIZE
    ensures TxAdd(TxAdd(p, a), b) == TxAdd(p, a + b)
  {
  }

  lemma {:induction false} TxFillConcat(mem: seq<byte>, p: nat, a: seq<byte>, b: seq<byte>)
    requires |mem| == TX_SIZE && p < TX_SIZE
    ensures TxFill(mem, p, a + b) == TxFill(TxFill(mem, p, a), TxAdd(p, |a|), b)
    decreases |a|
  {
    if a == [] {
      assert a + b == b;
    } else {
      TxFillConcat(mem[p := a[0]], TxAdd(p, 1), a[1..], b);
      TxAddAdd(p, 1, |a| - 1);
      assert (a + b)[1..] == a[1..] + b;
    }
  }

  // Is address i among the n bytes from p?
  predicate InArc(i: nat, p: nat, n: nat)
    requires i < TX_SIZE && p < TX_SIZE
  {
    if p <= i then i - p < n else i + TX_SIZE - p < n
  }

  lemma ArcAddress(p: nat, n: nat, k: nat)
    requires p < TX_SIZE && k < n <= TX_SIZE
    ensures InArc(TxAdd(p, k), p, n)
    ensures TxAdd(p, k) == if p + k < TX_SIZE then p + k else p + k - TX_SIZE
  {
  }

  // Bytes outside the arc written are untouched.
  lemma {:induction false} TxFillOutside(mem: seq<byte>, p: nat, bytes: seq<byte>, i: nat)
    requires |mem| == TX_SIZE && p < TX_SIZE && i < TX_SIZE
    requires !InArc(i, p, |bytes|)
    ensures TxFill(mem, p, bytes)[i] == mem[i]
    decreases |bytes|
  {
    if bytes != [] {
      TxFillOutside(mem[p := bytes[0]], TxAdd(p, 1), bytes[1..], i);
    }
  }

  // A frame no longer than the ring lies in it byte for byte.
  lemma {:induction false} TxFillInside(mem: seq<byte>, p: nat, bytes: seq<byte>, k: nat)
    requires |mem| == TX_SIZE && p < TX_SIZE
    requires k < |bytes| <= TX_SIZE
    ensures TxFill(mem, p, bytes)[TxAdd(p, k)] == bytes[k]
    decreases |bytes|
  {
    if k == 0 {
      TxFillOutside(mem[p := bytes[0]], TxAdd(p, 1), bytes[1..], p);
    } else {
      TxFillInside(mem[p := bytes[0]], TxAdd(p, 1), bytes[1..], k - 1);
      TxAddAdd(p, 1, k - 1);
    }
  }

  // The n bytes round the ring from p.
  function Arc(mem: seq<byte>, p: nat, n: nat): (r: seq<byte>)
    requires |mem| == TX_SIZE && p < TX_SIZE
    ensures |r| == n
  {
    seq(n, k requires 0 <= k < n => mem[TxAdd(p, k)])
  }

  // What lies further round the ring, within one turn, is somewhere else.
  lemma OutsideLater(start: nat, k: nat, offset: nat, n: nat)
    requires start < TX_SIZE && k < offset && offset + n <= TX_SIZE
    ensures !InArc(TxAdd(start, k), TxAdd(start, offset), n)
  {
    var a := if start + k < TX_SIZE then start + k else start + k - TX_SIZE;
    var b := if start + offset < TX_SIZE then start + offset else start + offset - TX_SIZE;
    assert TxAdd(start, k) == a;
    assert offset < TX_SIZE ==> TxAdd(start, offset) == b;
  }

  // A write that does not overlap an arc leaves it as it was: `gap` bytes lie between its start and the arc's.
  lemma TxFillKeepsArc(mem: seq<byte>, p: nat, n: nat, bytes: seq<byte>)
    requires |mem| == TX_SIZE && p < TX_SIZE
    requires n + |bytes| <= TX_SIZE
    ensures Arc(TxFill(mem, TxAdd(p, n), bytes), p, n) == Arc(mem, p, n)
  {
    hide TxFill, TxAdd, InArc;
    forall k | 0 <= k < n
      ensures TxFill(mem, TxAdd(p, n), bytes)[TxAdd(p, k)] == mem[TxAdd(p, k)]
    {
      OutsideLater(p, k, n, |bytes|);
      TxFillOutside(mem, TxAdd(p, n), bytes, TxAdd(p, k));
    }
  }

  lemma TxFillArc(mem: seq<byte>, p: nat, bytes: seq<byte>)
    requires |mem| == TX_SIZE && p < TX_SIZE && |bytes| <= TX_SIZE
    ensures Arc(TxFill(mem, p, bytes), p, |bytes|) == bytes
  {
    forall k | 0 <= k < |bytes|
      ensures Arc(TxFill(mem, p, bytes), p, |bytes|)[k] == bytes[k]
    {
      TxFillInside(mem, p, bytes, k);
    }
  }

  // A write that does not reach the end of the ring replaces one slice.
  lemma {:induction false} TxFillSlice(mem: seq<byte>, p: nat, bytes: seq<byte>)
    requires |mem| == TX_SIZE && p < TX_SIZE && p + |bytes| <= TX_SIZE
    ensures TxFill(mem, p, bytes) == mem[..p] + bytes + mem[p + |bytes|..]
    decreases |bytes|
  {
    if bytes == [] {
      assert mem == mem[..p] + mem[p..];
    } else if p + 1 == TX_SIZE {
      assert bytes[1..] == [];
    } else {
      TxFillSlice(mem[p := bytes[0]], p + 1, bytes[1..]);
    }
  }

  // One bus access at an aligned pointer.
  lemma TxAccess(mem: seq<byte>, p: nat, bytes: seq<byte>, mode: Mode)
    requires |mem| == TX_SIZE && p < TX_SIZE && Aligned(p, mode) && |bytes| == Width(mode)
    ensures p + |bytes| <= TX_SIZE
    ensures TxFill(mem, p, bytes) == mem[..p] + bytes + mem[p + |bytes|..]
    ensures TxAdd(p, |bytes|) == if p + |bytes| == TX_SIZE then 0 else p + |bytes|
    ensures Aligned(TxAdd(p, |bytes|), mode)
  {
    TxFits(p, mode);
    TxFillSlice(mem, p, bytes);
  }

  lemma TxFits(p: nat, mode: Mode)
    requires p < TX_SIZE && Aligned(p, mode)
    ensures p + Width(mode) <= TX_SIZE
    ensures TxAdd(p, Width(mode)) == if p + Width(mode) == TX_SIZE then 0 else p + Width(mode)
    ensures Aligned(TxAdd(p, Width(mode)), mode)
  {
    AlignedRoom(p, mode);
    ArcAddress(p, Width(mode) + 1, Width(mode));
  }

  lemma AlignedRoom(p: nat, mode: Mode)
    requires p < TX_SIZE && Aligned(p, mode)
    ensures p + Width(mode) <= TX_SIZE && Aligned(p + Width(mode), mode)
  {
    match mode
    case ByteMode =>
    case WordMode => var q := p / 2; assert p == 2 * q && q < 0x600;
    case DwordMode => var q := p / 4; assert p == 4 * q && q < 0x300;
  }
}
