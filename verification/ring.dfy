/**
 The DMA descriptor ring shared by the receive and transmit paths.

 A ring is a fixed number of descriptors, each bound one-to-one to a raw buffer slot of a fixed
 size; the descriptors are chained circularly, so the descriptor after index `i` is `(i + 1) % N`.
 Every descriptor carries an ownership flag: the DMA engine may only use a slot it owns, and
 software may only read or write a slot while it owns it.

 A frame that does not fit one slot is laid out across consecutive slots in ring order, each
 slot filled from offset 0. `ReadStream` is that layout read back (the receive direction) and
 `WriteStream` is that layout written (the transmit direction).
 */
module DescriptorRing {
  import opened Bytes

  /** Who may touch a descriptor's buffer: software (the driver) or the DMA engine. */
  datatype Owner = Cpu | Dma

  /** Descriptor `i` has ownership flag `owners[i]` and is bound to buffer `buffers[i]`; every
      buffer holds exactly `slotSize` bytes. */
  datatype Ring = Ring(owners: seq<Owner>, buffers: seq<seq<byte>>, slotSize: nat) {

    predicate Valid() {
      && |buffers| > 0
      && |owners| == |buffers|
      && slotSize > 0
      && forall i :: 0 <= i < |buffers| ==> |buffers[i]| == slotSize
    }

    /** Total payload capacity of the ring. */
    function Capacity(): nat {
      |buffers| * slotSize
    }
  }

  /** The descriptor the hardware chain links to after `i` in a ring of `n` descriptors. */
  function Next(n: nat, i: nat): (j: nat)
    requires i < n
    ensures j < n
    ensures j == 0 <==> i == n - 1
  {
    if i + 1 == n then 0 else i + 1
  }

  /** `Next` is the successor modulo the ring size. */
  lemma NextModular(n: nat, i: nat)
    requires i < n
    ensures Next(n, i) == (i + 1) % n
  {
  }

  /** The descriptor reached from `i` by following the chain `k` times. */
  function Advance(n: nat, i: nat, k: nat): (j: nat)
    requires i < n
    ensures j < n
    decreases k
  {
    if k == 0 then i else Advance(n, Next(n, i), k - 1)
  }

  /** How many `Next` steps lead from `at` to `i` (always less than the ring size). */
  function Dist(n: nat, at: nat, i: nat): (d: nat)
    requires at < n && i < n
    ensures d < n
    ensures d == 0 <==> i == at
  {
    if at <= i then i - at else i + n - at
  }

  /** Index (counted from 0) of the slot that holds the last byte of an `n`-byte frame laid out
      from offset 0 of its first slot; 0 for an empty frame. */
  function LastPiece(n: nat, size: nat): nat
    requires size > 0
    decreases n
  {
    if n <= size then 0 else 1 + LastPiece(n - size, size)
  }

  /** The first `n` bytes of the frame laid out from offset 0 of slot `at`, in ring order. */
  function ReadStream(r: Ring, at: nat, n: nat): (s: seq<byte>)
    requires r.Valid() && at < |r.buffers|
    ensures |s| == n
    decreases n
  {
    if n <= r.slotSize then r.buffers[at][..n]
    else r.buffers[at] + ReadStream(r, Next(|r.buffers|, at), n - r.slotSize)
  }

  /** Buffer `i` with its first `|b|` bytes replaced by `b`; ownership untouched. */
  function WritePrefix(r: Ring, i: nat, b: seq<byte>): (r': Ring)
    requires r.Valid() && i < |r.buffers| && |b| <= r.slotSize
    ensures r'.Valid() && r'.owners == r.owners && |r'.buffers| == |r.buffers| && r'.slotSize == r.slotSize
  {
    r.(buffers := r.buffers[i := b + r.buffers[i][|b|..]])
  }

  /** `b` laid out from offset 0 of slot `at`, one slot-sized piece per descriptor in ring order;
      a frame longer than the ring wraps and its later pieces overwrite the earlier ones. */
  function WriteStream(r: Ring, at: nat, b: seq<byte>): (r': Ring)
    requires r.Valid() && at < |r.buffers|
    ensures r'.Valid() && r'.owners == r.owners && |r'.buffers| == |r.buffers| && r'.slotSize == r.slotSize
    decreases |b|
  {
    if |b| <= r.slotSize then WritePrefix(r, at, b)
    else WriteStream(WritePrefix(r, at, b[..r.slotSize]), Next(|r.buffers|, at), b[r.slotSize..])
  }

  /** Following the chain `k + 1` times is following it `k` times and once more. */
  lemma {:induction false} AdvanceNext(n: nat, i: nat, k: nat)
    requires i < n
    ensures Advance(n, i, k + 1) == Next(n, Advance(n, i, k))
    decreases k
  {
    if k > 0 {
      AdvanceNext(n, Next(n, i), k - 1);
    }
  }

  /** The chain visits the descriptors in order of their distance from the start: the `k`-th
      descriptor after `at` is the one at distance `k`, as long as the ring has not wrapped. */
  lemma {:induction false} DistAdvance(n: nat, at: nat, k: nat)
    requires at < n && k < n
    ensures Dist(n, at, Advance(n, at, k)) == k
    decreases k
  {
    if k > 0 {
      DistAdvance(n, at, k - 1);
      AdvanceNext(n, at, k - 1);
    }
  }

  /** Writing an empty prefix leaves the ring as it was. */
  lemma WritePrefixEmpty(r: Ring, i: nat)
    requires r.Valid() && i < |r.buffers|
    ensures WritePrefix(r, i, []) == r
  {
    assert [] + r.buffers[i][0..] == r.buffers[i];
    assert r.buffers[i := r.buffers[i]] == r.buffers;
  }

  /** Writing `x` and then `y` at offset `|x|` of the same slot is writing `x + y`. */
  lemma WritePrefixAppend(r: Ring, i: nat, x: seq<byte>, y: seq<byte>)
    requires r.Valid() && i < |r.buffers| && |x| + |y| <= r.slotSize
    ensures WriteAt(WritePrefix(r, i, x), i, |x|, y) == WritePrefix(r, i, x + y)
  {
    var a := WriteAt(WritePrefix(r, i, x), i, |x|, y);
    var b := WritePrefix(r, i, x + y);
    assert a.buffers[i] == b.buffers[i];
    assert a.buffers == b.buffers;
  }

  /** Buffer `i` with `b` copied in at offset `off`, as one `memcpy` into a DMA buffer does. */
  function WriteAt(r: Ring, i: nat, off: nat, b: seq<byte>): (r': Ring)
    requires r.Valid() && i < |r.buffers| && off + |b| <= r.slotSize
    ensures r'.Valid() && r'.owners == r.owners && |r'.buffers| == |r.buffers| && r'.slotSize == r.slotSize
  {
    var d := r.buffers[i];
    r.(buffers := r.buffers[i := d[..off] + b + d[off + |b|..]])
  }

  /** A frame laid out as whole slots `x` followed by at most one slot's worth `y` is `x` laid
      out and then `y` written at the start of the slot after them. */
  lemma {:induction false} WriteStreamAppend(r: Ring, at: nat, x: seq<byte>, y: seq<byte>, k: nat)
    requires r.Valid() && at < |r.buffers|
    requires |x| == k * r.slotSize && |y| <= r.slotSize
    ensures WriteStream(r, at, x + y) == WritePrefix(WriteStream(r, at, x), Advance(|r.buffers|, at, k), y)
    decreases k
  {
    var S := r.slotSize;
    if k == 0 {
      assert x + y == y;
      WritePrefixEmpty(r, at);
    } else if |y| == 0 {
      assert x + y == x;
      WritePrefixEmpty(WriteStream(r, at, x), Advance(|r.buffers|, at, k));
    } else {
      WriteStreamAppendStep(r, at, x, y, k);
    }
  }

  lemma {:induction false} WriteStreamAppendStep(r: Ring, at: nat, x: seq<byte>, y: seq<byte>, k: nat)
    requires r.Valid() && at < |r.buffers|
    requires |x| == k * r.slotSize && 0 < |y| <= r.slotSize && k > 0
    ensures WriteStream(r, at, x + y) == WritePrefix(WriteStream(r, at, x), Advance(|r.buffers|, at, k), y)
    decreases k, 0
  {
    var S := r.slotSize;
    assert |x| == (k - 1) * S + S;
    var r1 := WritePrefix(r, at, x[..S]);
    var xy := x + y;
    assert xy[..S] == x[..S];
    assert xy[S..] == x[S..] + y;
    assert WriteStream(r, at, xy) == WriteStream(r1, Next(|r.buffers|, at), x[S..] + y);
    assert Advance(|r.buffers|, at, k) == Advance(|r.buffers|, Next(|r.buffers|, at), k - 1);
    WriteStreamAppend(r1, Next(|r.buffers|, at), x[S..], y, k - 1);
    var w := WriteStream(r1, Next(|r.buffers|, at), x[S..]);
    assert WriteStream(r, at, xy) == WritePrefix(w, Advance(|r.buffers|, at, k), y);
    if k == 1 {
      assert x[..S] == x;
      assert x[S..] == [];
      assert WriteStream(r, at, x) == r1;
      WritePrefixEmpty(r1, Next(|r.buffers|, at));
      assert w == r1;
    } else {
      assert WriteStream(r, at, x) == w;
    }
  }

  /** Laying out `b` from `at` leaves every slot farther than `|b|` bytes' worth of slots from
      `at` untouched. */
  lemma {:induction false} WriteStreamFrame(r: Ring, at: nat, b: seq<byte>, i: nat)
    requires r.Valid() && at < |r.buffers| && i < |r.buffers|
    requires |b| <= Dist(|r.buffers|, at, i) * r.slotSize
    ensures WriteStream(r, at, b).buffers[i] == r.buffers[i]
    decreases |b|
  {
    var S := r.slotSize;
    var d := Dist(|r.buffers|, at, i);
    if |b| <= S {
      if i == at {
        assert |b| == 0;
        WritePrefixEmpty(r, at);
      }
    } else {
      assert d > 0;
      var r1 := WritePrefix(r, at, b[..S]);
      assert Dist(|r1.buffers|, Next(|r.buffers|, at), i) == d - 1;
      assert (d - 1) * S == d * S - S;
      WriteStreamFrame(r1, Next(|r.buffers|, at), b[S..], i);
    }
  }

  /** The descriptor at distance `Dist(n, at, i)` from `at` is `i` itself. */
  lemma {:induction false} AdvanceDist(n: nat, at: nat, i: nat)
    requires at < n && i < n
    ensures Advance(n, at, Dist(n, at, i)) == i
    decreases Dist(n, at, i)
  {
    if i != at {
      assert Dist(n, Next(n, at), i) == Dist(n, at, i) - 1;
      AdvanceDist(n, Next(n, at), i);
    }
  }

  /** Copying `b` at the write position of a partly laid-out frame `w` (offset `|w| - k * S` of
      its `k`-th slot) lays out `w + b`, as long as `b` fits that slot. */
  lemma {:induction false} WriteStreamExtend(r: Ring, at: nat, w: seq<byte>, k: nat, b: seq<byte>)
    requires r.Valid() && at < |r.buffers|
    requires k * r.slotSize <= |w| && |w| + |b| <= k * r.slotSize + r.slotSize
    ensures WriteAt(WriteStream(r, at, w), Advance(|r.buffers|, at, k), |w| - k * r.slotSize, b)
         == WriteStream(r, at, w + b)
  {
    var S := r.slotSize;
    var whole := w[..k * S];
    var part := w[k * S..];
    var base := WriteStream(r, at, whole);
    var d := Advance(|r.buffers|, at, k);
    WriteStreamAppend(r, at, whole, part, k);
    assert whole + part == w;
    WritePrefixAppend(base, d, part, b);
    WriteStreamAppend(r, at, whole, part + b, k);
    assert whole + (part + b) == w + b;
  }

  /** The first `m` descriptors from `at` are owned by software. */
  ghost predicate SoftwareOwned(r: Ring, at: nat, m: nat)
    requires r.Valid() && at < |r.buffers|
  {
    forall k :: 0 <= k < m ==> r.owners[Advance(|r.buffers|, at, k)] == Cpu
  }

  /** A frame of at most `m` slots laid out from `at`, where the first `m` descriptors are owned
      by software, leaves every DMA-owned buffer untouched. */
  lemma {:induction false} WriteStreamSparesDma(r: Ring, at: nat, b: seq<byte>, m: nat)
    requires r.Valid() && at < |r.buffers|
    requires |b| <= m * r.slotSize && SoftwareOwned(r, at, m)
    ensures forall i :: 0 <= i < |r.buffers| && r.owners[i] == Dma ==> WriteStream(r, at, b).buffers[i] == r.buffers[i]
  {
    forall i | 0 <= i < |r.buffers| && r.owners[i] == Dma
      ensures WriteStream(r, at, b).buffers[i] == r.buffers[i]
    {
      var d := Dist(|r.buffers|, at, i);
      AdvanceDist(|r.buffers|, at, i);
      assert m <= d;
      MulMonotone(m, d, r.slotSize);
      WriteStreamFrame(r, at, b, i);
    }
  }

  /** Reading a frame depends on the buffers only, not on who owns them. */
  lemma {:induction false} ReadStreamBuffersOnly(r: Ring, r2: Ring, at: nat, n: nat)
    requires r.Valid() && r2.Valid() && at < |r.buffers|
    requires r2.buffers == r.buffers && r2.slotSize == r.slotSize
    ensures ReadStream(r2, at, n) == ReadStream(r, at, n)
    decreases n
  {
    if n > r.slotSize {
      ReadStreamBuffersOnly(r, r2, Next(|r.buffers|, at), n - r.slotSize);
    }
  }

  /** Round trip: a frame no longer than the ring, laid out from `at` and read back from `at`,
      is the frame itself. */
  lemma {:induction false} ReadWriteRoundTrip(r: Ring, at: nat, b: seq<byte>)
    requires r.Valid() && at < |r.buffers|
    requires |b| <= r.Capacity()
    ensures ReadStream(WriteStream(r, at, b), at, |b|) == b
    decreases |b|
  {
    var S := r.slotSize;
    var N := |r.buffers|;
    if |b| > S {
      var r1 := WritePrefix(r, at, b[..S]);
      var w := WriteStream(r1, Next(|r.buffers|, at), b[S..]);
      assert Dist(|r1.buffers|, Next(|r.buffers|, at), at) == N - 1;
      assert |b[S..]| <= (N - 1) * S by {
        assert (N - 1) * S == N * S - S;
      }
      WriteStreamFrame(r1, Next(|r.buffers|, at), b[S..], at);
      assert w.buffers[at] == b[..S];
      ReadWriteRoundTrip(r1, Next(|r.buffers|, at), b[S..]);
      assert b == b[..S] + b[S..];
    }
  }

  /** Reading `m` more bytes from offset `off` of the `k`-th slot extends the stream by exactly
      those bytes of that slot. */
  lemma {:induction false} ReadStreamAppend(r: Ring, at: nat, k: nat, off: nat, m: nat)
    requires r.Valid() && at < |r.buffers| && off + m <= r.slotSize
    ensures ReadStream(r, at, k * r.slotSize + off + m)
         == ReadStream(r, at, k * r.slotSize + off) + r.buffers[Advance(|r.buffers|, at, k)][off..off + m]
    decreases k
  {
    var S := r.slotSize;
    var d := r.buffers[Advance(|r.buffers|, at, k)];
    if m == 0 {
      assert d[off..off] == [];
      assert ReadStream(r, at, k * S + off) + [] == ReadStream(r, at, k * S + off);
    } else if k == 0 {
      assert r.buffers[at][..off + m] == r.buffers[at][..off] + r.buffers[at][off..off + m];
    } else {
      ReadStreamAppendStep(r, at, k, off, m);
    }
  }

  lemma {:induction false} ReadStreamAppendStep(r: Ring, at: nat, k: nat, off: nat, m: nat)
    requires r.Valid() && at < |r.buffers| && off + m <= r.slotSize && k > 0 && m > 0
    ensures ReadStream(r, at, k * r.slotSize + off + m)
         == ReadStream(r, at, k * r.slotSize + off) + r.buffers[Advance(|r.buffers|, at, k)][off..off + m]
    decreases k, 0
  {
    var S := r.slotSize;
    var nx := Next(|r.buffers|, at);
    var j := (k - 1) * S;
    assert k * S == j + S;
    var d := r.buffers[Advance(|r.buffers|, nx, k - 1)][off..off + m];
    assert Advance(|r.buffers|, at, k) == Advance(|r.buffers|, nx, k - 1);
    ReadStreamAppend(r, nx, k - 1, off, m);
    assert ReadStream(r, nx, j + off + m) == ReadStream(r, nx, j + off) + d;
    assert ReadStream(r, at, j + S + off + m) == r.buffers[at] + ReadStream(r, nx, j + off + m);
    if j + off == 0 {
      assert r.buffers[at][..S] == r.buffers[at];
      assert ReadStream(r, at, j + S + off) == r.buffers[at];
      assert ReadStream(r, nx, j + off) == [];
    } else {
      assert ReadStream(r, at, j + S + off) == r.buffers[at] + ReadStream(r, nx, j + off);
    }
  }

  /** An `n`-byte frame whose last byte lies in slot `k` (counted from 0) spans more than `k`
      slots' worth of bytes, and at most `k + 1`. */
  lemma {:induction false} LastPieceBounds(n: nat, size: nat)
    requires size > 0
    ensures n > 0 ==> LastPiece(n, size) * size < n
    ensures n <= (LastPiece(n, size) + 1) * size
    decreases n
  {
    if n > size {
      LastPieceBounds(n - size, size);
      var k := LastPiece(n - size, size);
      assert (k + 1) * size == k * size + size;
      assert (k + 2) * size == (k + 1) * size + size;
    }
  }

  /** `k` whole slots followed by `off` more bytes (`0 < off <= size`) end in slot `k`. */
  lemma {:induction false} LastPieceOf(k: nat, off: nat, size: nat)
    requires 0 < off <= size
    ensures LastPiece(k * size + off, size) == k
    decreases k
  {
    if k > 0 {
      assert k * size + off == (k - 1) * size + off + size;
      LastPieceOf(k - 1, off, size);
    }
  }

  /** A longer frame never ends in an earlier slot. */
  lemma {:induction false} LastPieceMonotonic(m: nat, n: nat, size: nat)
    requires size > 0 && m <= n
    ensures LastPiece(m, size) <= LastPiece(n, size)
    decreases n
  {
    if m > size {
      LastPieceMonotonic(m - size, n - size, size);
    }
  }

  /** A frame of more than `k` whole slots ends in slot `k` or later. */
  lemma {:induction false} LastPieceAtLeast(n: nat, k: nat, size: nat)
    requires size > 0 && n > k * size
    ensures LastPiece(n, size) >= k
    decreases k
  {
    if k > 0 {
      assert k * size == (k - 1) * size + size;
      LastPieceAtLeast(n - size, k - 1, size);
    }
  }

  /** Multiplying by the same non-negative factor keeps a strict order only between smaller and
      larger multiplicands. */
  lemma MulCancel(a: nat, b: nat, c: nat)
    ensures a * c < b * c ==> a < b
  {
  }

  /** Multiplying by the same non-negative factor keeps the order of the multiplicands. */
  lemma MulMonotone(a: nat, b: nat, c: nat)
    requires a <= b
    ensures a * c <= b * c
  {
  }
}
