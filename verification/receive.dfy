/**
 The frame receiver (`lowLevelInput`): copies one completed frame out of the RX descriptor ring
 into a freshly allocated chained buffer, then hands the frame's descriptors back to the DMA
 engine and un-pauses reception if the engine had run out of buffers.

 The HAL's completion query (`HAL_ETH_GetReceivedFrame_IT`) and the stack's allocator
 (`pbuf_alloc`) are foreign: the first is a boolean input together with the frame bookkeeping it
 leaves in the state, the second is the list of segment lengths it hands out, or `None`.
 */
module FrameReceiver {
  import opened Bytes
  import opened Wrappers
  import opened DescriptorRing
  import opened BufferChain

  /** The HAL's record of the last completed frame (`RxFrameInfos`): the descriptor holding its
      first segment, its length in bytes and the number of descriptors it occupies. */
  datatype RxFrameInfo = RxFrameInfo(firstDesc: nat, length: nat, segCount: nat)

  /** The receive side of the MAC as the driver sees it: the RX ring, the HAL's frame record and
      the "receive buffer unavailable" (RBUS) flag of the DMA status register. */
  datatype RxState = RxState(ring: Ring, info: RxFrameInfo, rbus: bool)

  /** What one call produces: the chain handed to the stack (`None` for a null pointer), the
      state afterwards, and whether reception was resumed by a write to the poll-demand register. */
  datatype RxOutcome = RxOutcome(frame: Option<Chain>, state: RxState, resumed: bool)

  /** What the HAL guarantees about a frame it reports complete: it starts at offset 0 of its
      first descriptor's buffer and fits in the `segCount` descriptors it occupies, which are no
      more than the ring has. */
  predicate InfoFits(r: Ring, info: RxFrameInfo) {
    && r.Valid()
    && info.firstDesc < |r.buffers|
    && info.segCount <= |r.buffers|
    && info.length <= info.segCount * r.slotSize
  }

  /** The state's frame record describes a frame the HAL could report. */
  predicate FrameWellFormed(s: RxState) {
    InfoFits(s.ring, s.info)
  }

  /** Whether descriptor `i` is one of the `segCount` descriptors of the reported frame. */
  predicate InFrame(s: RxState, i: nat)
    requires FrameWellFormed(s) && i < |s.ring.buffers|
  {
    Dist(|s.ring.buffers|, s.info.firstDesc, i) < s.info.segCount
  }

  /** Where the copy stands in the ring: the descriptor being read and the read offset in its
      buffer. */
  datatype RxCursor = RxCursor(desc: nat, bufferOffset: nat)

  /** The cursor sits `|copied|` bytes into the frame laid out from `first`, at offset
      `bufferOffset` of the `adv`-th descriptor, and `copied` are exactly those bytes. */
  ghost predicate ReadUpTo(r: Ring, first: nat, c: RxCursor, adv: nat, copied: seq<byte>)
    requires r.Valid() && first < |r.buffers|
  {
    && c.bufferOffset <= r.slotSize
    && c.desc == Advance(|r.buffers|, first, adv)
    && |copied| == adv * r.slotSize + c.bufferOffset
    && copied == ReadStream(r, first, |copied|)
  }

  /** One segment's worth of the copy loop of `lowLevelInput` (its inner `while` and the final
      `memcpy`): fills a payload of `len` bytes from the cursor on, moving to the next descriptor
      whenever the current buffer is exhausted. */
  method ReadSegment(r: Ring, ghost first: nat, c: RxCursor, len: nat, ghost adv: nat, ghost copied: seq<byte>)
    returns (payload: seq<byte>, c': RxCursor, ghost adv': nat, ghost copied': seq<byte>)
    requires r.Valid() && first < |r.buffers|
    requires ReadUpTo(r, first, c, adv, copied) && (c.bufferOffset == 0 ==> adv == 0)
    ensures ReadUpTo(r, first, c', adv', copied') && (c'.bufferOffset == 0 ==> adv' == 0)
    ensures |payload| == len && copied' == copied + payload
  {
    var N := |r.buffers|;
    var S := r.slotSize;
    c' := c;
    adv' := adv;
    copied' := copied;
    payload := [];
    var bytesLeft: nat := len;
    while bytesLeft + c'.bufferOffset > S
      invariant ReadUpTo(r, first, c', adv', copied')
      invariant |payload| + bytesLeft == len
      invariant copied' == copied + payload
      invariant c'.bufferOffset == 0 && adv' > 0 ==> bytesLeft > 0
      decreases bytesLeft + c'.bufferOffset
    {
      var chunk := S - c'.bufferOffset;
      var bytes := r.buffers[c'.desc][c'.bufferOffset..S];
      ReadChunkThenAdvance(r, first, c', adv', copied');
      payload := payload + bytes;
      copied' := copied' + bytes;
      // advance to the next descriptor
      c' := RxCursor(Next(N, c'.desc), 0);
      adv' := adv' + 1;
      bytesLeft := bytesLeft - chunk;
    }
    var bytes := r.buffers[c'.desc][c'.bufferOffset..c'.bufferOffset + bytesLeft];
    ReadAppendKeepsReadUpTo(r, first, c', adv', copied', bytesLeft);
    payload := payload + bytes;
    copied' := copied' + bytes;
    c' := RxCursor(c'.desc, c'.bufferOffset + bytesLeft);
  }

  /** Reading the rest of the current buffer and moving to the next descriptor keeps the cursor
      in step with the frame. */
  lemma ReadChunkThenAdvance(r: Ring, first: nat, c: RxCursor, adv: nat, copied: seq<byte>)
    requires r.Valid() && first < |r.buffers|
    requires ReadUpTo(r, first, c, adv, copied)
    ensures ReadUpTo(r, first, RxCursor(Next(|r.buffers|, c.desc), 0), adv + 1,
                     copied + r.buffers[c.desc][c.bufferOffset..r.slotSize])
  {
    var S := r.slotSize;
    assert |r.buffers[c.desc]| == S;
    ReadStreamAppend(r, first, adv, c.bufferOffset, S - c.bufferOffset);
    AdvanceNext(|r.buffers|, first, adv);
    assert (adv + 1) * S == adv * S + S;
  }

  /** Reading `m` more bytes of the current buffer keeps the cursor in step with the frame. */
  lemma ReadAppendKeepsReadUpTo(r: Ring, first: nat, c: RxCursor, adv: nat, copied: seq<byte>, m: nat)
    requires r.Valid() && first < |r.buffers|
    requires ReadUpTo(r, first, c, adv, copied) && c.bufferOffset + m <= r.slotSize
    ensures ReadUpTo(r, first, RxCursor(c.desc, c.bufferOffset + m), adv,
                     copied + r.buffers[c.desc][c.bufferOffset..c.bufferOffset + m])
  {
    assert |r.buffers[c.desc]| == r.slotSize;
    ReadStreamAppend(r, first, adv, c.bufferOffset, m);
  }

  /** The copy loop of `lowLevelInput`: fills segments of the given lengths with the bytes of
      the ring read from offset 0 of descriptor `first`, crossing into the next descriptor
      whenever the current buffer is exhausted. `last` is the descriptor the cursor ends on. */
  method CopyFromRing(r: Ring, first: nat, lens: seq<nat>) returns (chain: Chain, last: nat)
    requires r.Valid() && first < |r.buffers|
    ensures Lengths(chain) == lens
    ensures Flatten(chain) == ReadStream(r, first, Sum(lens))
    ensures last == Advance(|r.buffers|, first, LastPiece(Sum(lens), r.slotSize))
  {
    var c := RxCursor(first, 0);
    ghost var adv: nat := 0;
    ghost var copied: seq<byte> := [];
    chain := [];
    var j: nat := 0;
    while j < |lens|
      invariant j <= |lens|
      invariant |chain| == j && forall k :: 0 <= k < j ==> |chain[k]| == lens[k]
      invariant ReadUpTo(r, first, c, adv, copied) && (c.bufferOffset == 0 ==> adv == 0)
      invariant Flatten(chain) == copied
      invariant |copied| == Sum(lens[..j])
    {
      var payload;
      payload, c, adv, copied := ReadSegment(r, first, c, lens[j], adv, copied);
      FlattenSnoc(chain, payload);
      SumSnoc(lens, j);
      chain := chain + [payload];
      j := j + 1;
    }
    assert lens[..j] == lens;
    if c.bufferOffset > 0 {
      LastPieceOf(adv, c.bufferOffset, r.slotSize);
    }
    last := c.desc;
  }

  /** The release loop of `lowLevelInput`: sets the "own" bit of `count` descriptors in ring order
      starting at `first`, returning their buffers to the DMA engine. */
  method ReleaseDescriptors(r: Ring, first: nat, count: nat) returns (r': Ring)
    requires r.Valid() && first < |r.buffers| && count <= |r.buffers|
    ensures r'.Valid() && r'.buffers == r.buffers && r'.slotSize == r.slotSize
    ensures forall i :: 0 <= i < |r.buffers| ==>
              r'.owners[i] == (if Dist(|r.buffers|, first, i) < count then Dma else r.owners[i])
  {
    var N := |r.buffers|;
    r' := r;
    var desc := first;
    var k := 0;
    while k < count
      invariant k <= count
      invariant desc == Advance(N, first, k)
      invariant r'.buffers == r.buffers && r'.slotSize == r.slotSize && |r'.owners| == N
      invariant forall i :: 0 <= i < N ==>
                  r'.owners[i] == (if Dist(N, first, i) < k then Dma else r.owners[i])
    {
      DistAdvance(N, first, k);
      r' := r'.(owners := r'.owners[desc := Dma]);
      AdvanceNext(N, first, k);
      desc := Next(N, desc);
      k := k + 1;
    }
  }

  /** One call of `lowLevelInput`. With no completed frame it returns null and changes nothing.
      Otherwise it copies the frame into a chain of the allocated shape (no chain for an empty
      frame or a failed allocation), returns exactly the frame's descriptors to the DMA engine,
      clears the segment count, and clears RBUS and resumes reception when RBUS was set. */
  method LowLevelInput(s: RxState, frameReady: bool, alloc: Option<seq<nat>>) returns (o: RxOutcome)
    requires s.ring.Valid()
    requires frameReady ==> FrameWellFormed(s)
    requires alloc.Some? ==> Sum(alloc.value) == s.info.length
    ensures !frameReady ==> o == RxOutcome(None, s, false)
    ensures frameReady ==> (o.frame.Some? <==> s.info.length > 0 && alloc.Some?)
    ensures o.frame.Some? ==>
              && Lengths(o.frame.value) == alloc.value
              && Flatten(o.frame.value) == ReadStream(s.ring, s.info.firstDesc, s.info.length)
              && o.frame.value == Split(ReadStream(s.ring, s.info.firstDesc, s.info.length), alloc.value)
    ensures frameReady ==>
              && o.state.ring.Valid()
              && o.state.ring.buffers == s.ring.buffers && o.state.ring.slotSize == s.ring.slotSize
              && (forall i :: 0 <= i < |s.ring.buffers| ==>
                    o.state.ring.owners[i] == (if InFrame(s, i) then Dma else s.ring.owners[i]))
    ensures frameReady ==>
              && o.state.info == s.info.(segCount := 0)
              && !o.state.rbus
              && o.resumed == s.rbus
  {
    if !frameReady {
      return RxOutcome(None, s, false);
    }
    var length := s.info.length;
    var pbufChain: Option<Chain> := None;
    if length > 0 && alloc.Some? {
      var chain, _ := CopyFromRing(s.ring, s.info.firstDesc, alloc.value);
      SplitUnique(chain);
      pbufChain := Some(chain);
    }
    var ring := ReleaseDescriptors(s.ring, s.info.firstDesc, s.info.segCount);
    var info := s.info.(segCount := 0);
    // RBUS is write-one-to-clear; writing the poll-demand register resumes reception
    var resumed := s.rbus;
    o := RxOutcome(pbufChain, RxState(ring, info, false), resumed);
  }

  /** The copy never reads past the frame's own descriptors: the last byte of a non-empty frame
      lies in one of the `segCount` descriptors the HAL reported. */
  lemma FrameStaysInSegments(s: RxState)
    requires FrameWellFormed(s) && s.info.length > 0
    ensures LastPiece(s.info.length, s.ring.slotSize) < s.info.segCount
  {
    LastPieceBounds(s.info.length, s.ring.slotSize);
    var k := LastPiece(s.info.length, s.ring.slotSize);
    MulCancel(k, s.info.segCount, s.ring.slotSize);
  }

  /** The descriptors handed back are exactly `segCount` many, counted in ring order from the
      first one: the `k`-th descriptor after the first is in the frame iff `k < segCount`. */
  lemma InFrameIsPrefixOfRing(s: RxState, k: nat)
    requires FrameWellFormed(s) && k < |s.ring.buffers|
    ensures InFrame(s, Advance(|s.ring.buffers|, s.info.firstDesc, k)) <==> k < s.info.segCount
  {
    DistAdvance(|s.ring.buffers|, s.info.firstDesc, k);
  }
}
