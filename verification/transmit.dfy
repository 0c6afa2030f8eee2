/**
 The frame transmitter (`lowLevelOutput`): scatters an outgoing chained buffer across the TX
 descriptor ring from the HAL's current TX descriptor on, refusing to write into any descriptor
 the DMA engine still owns, and on success asks the HAL to transmit the frame. Whatever the
 outcome, a scope guard then clears the "transmit underflow" (TUS) flag and resumes
 transmission if the flag was set.

 `HAL_ETH_TransmitFrame` is foreign: the model reports the length it is called with and leaves
 the descriptor hand-over it performs out.
 */
module FrameTransmitter {
  import opened Bytes
  import opened Wrappers
  import opened DescriptorRing
  import opened BufferChain

  /** The lwIP error codes `lowLevelOutput` returns. */
  datatype Err = ErrOk | ErrUse

  /** The transmit side of the MAC as the driver sees it: the TX ring, the HAL's current TX
      descriptor (`TxDesc`) and the TUS flag of the DMA status register. */
  datatype TxState = TxState(ring: Ring, txDesc: nat, tus: bool)

  /** What one call produces: the returned code, the frame length `HAL_ETH_TransmitFrame` was
      called with (`None` when it was not called), the state afterwards, and whether transmission
      was resumed by a write to the poll-demand register. */
  datatype TxOutcome = TxOutcome(err: Err, transmitted: Option<nat>, state: TxState, resumed: bool)

  /** The descriptors a chain's copy must write into are the `LastPiece + 1` descriptors from
      `at` on; an empty chain touches none. The copy is refused iff one of them is DMA-owned. */
  predicate Blocked(r: Ring, at: nat, chain: Chain)
    requires r.Valid() && at < |r.buffers|
  {
    && |chain| > 0
    && exists k :: 0 <= k <= LastPiece(|Flatten(chain)|, r.slotSize) && r.owners[Advance(|r.buffers|, at, k)] == Dma
  }

  /** The bytes of the first `j` segments and `po` bytes of segment `j` open the chain's frame. */
  lemma {:induction false} FlattenPrefix(chain: Chain, j: nat, po: nat)
    requires j < |chain| && po <= |chain[j]|
    ensures |Flatten(chain[..j])| + |chain[j]| <= |Flatten(chain)|
    ensures Flatten(chain[..j]) + chain[j][..po] == Flatten(chain)[..|Flatten(chain[..j])| + po]
  {
    FlattenSplit(chain, j);
    FlattenCons(chain[j..]);
    assert chain[j..][0] == chain[j];
    var f := Flatten(chain);
    var p := Flatten(chain[..j]);
    assert f == p + (chain[j] + Flatten(chain[j..][1..]));
    assert f[..|p| + po] == p + chain[j][..po];
  }

  /** Descriptor `k` (counted from `at`) is the first DMA-owned one the frame needs: the copy
      stops there, having filled the `k` software-owned slots before it. */
  ghost predicate FirstBlocked(r: Ring, at: nat, chain: Chain, k: nat)
    requires r.Valid() && at < |r.buffers|
  {
    && k <= LastPiece(|Flatten(chain)|, r.slotSize)
    && k * r.slotSize <= |Flatten(chain)|
    && r.owners[Advance(|r.buffers|, at, k)] == Dma
    && SoftwareOwned(r, at, k)
  }

  /** How far the copy has got: the TX ring as written so far, the descriptor being filled and
      the write offset in its buffer. */
  datatype Cursor = Cursor(ring: Ring, desc: nat, bufferOffset: nat)

  /** The cursor has laid out `written` from descriptor `at` of the original ring `r` and stands
      at offset `bufferOffset` of the `adv`-th descriptor, right after the last byte written. */
  ghost predicate LaidOut(r: Ring, at: nat, c: Cursor, adv: nat, written: seq<byte>)
    requires r.Valid() && at < |r.buffers|
  {
    && c.bufferOffset <= r.slotSize
    && c.desc == Advance(|r.buffers|, at, adv)
    && |written| == adv * r.slotSize + c.bufferOffset
    && c.ring == WriteStream(r, at, written)
  }

  /** One `memcpy` into the current TX buffer extends the laid-out bytes. */
  lemma {:induction false} CopyKeepsLaidOut(r: Ring, at: nat, c: Cursor, bytes: seq<byte>, adv: nat, written: seq<byte>)
    requires r.Valid() && at < |r.buffers|
    requires LaidOut(r, at, c, adv, written)
    requires c.bufferOffset + |bytes| <= r.slotSize
    ensures LaidOut(r, at, Cursor(WriteAt(c.ring, c.desc, c.bufferOffset, bytes), c.desc, c.bufferOffset + |bytes|),
                    adv, written + bytes)
  {
    WriteStreamExtend(r, at, written, adv, bytes);
  }

  /** Filling the rest of the current TX buffer from the payload and moving to the next
      descriptor keeps the laid-out bytes. */
  lemma {:induction false} FillThenAdvance(r: Ring, at: nat, c: Cursor, seg: seq<byte>, po: nat, chunk: nat,
                                           adv: nat, written: seq<byte>, start: seq<byte>)
    requires r.Valid() && at < |r.buffers|
    requires LaidOut(r, at, c, adv, written)
    requires chunk == r.slotSize - c.bufferOffset && po + chunk <= |seg|
    requires written == start + seg[..po]
    ensures LaidOut(r, at, Cursor(WriteAt(c.ring, c.desc, c.bufferOffset, seg[po..po + chunk]), Next(|r.buffers|, c.desc), 0),
                    adv + 1, start + seg[..po + chunk])
  {
    var bytes := seg[po..po + chunk];
    CopyKeepsLaidOut(r, at, c, bytes, adv, written);
    assert seg[..po + chunk] == seg[..po] + bytes;
    assert written + bytes == start + seg[..po + chunk];
    assert (adv + 1) * r.slotSize == adv * r.slotSize + r.slotSize;
    AdvanceNext(|r.buffers|, at, adv);
  }

  /** The inner `while` of the copy loop of `lowLevelOutput`: while the rest of the segment does
      not fit the current buffer, fills that buffer and moves to the next descriptor, stopping
      (`ok` false) on entering a DMA-owned one. `copied` payload bytes have been copied. */
  method FillBuffers(ghost r: Ring, ghost at: nat, c: Cursor, seg: seq<byte>, ghost adv: nat, ghost written: seq<byte>)
    returns (ok: bool, c': Cursor, copied: nat, ghost adv': nat, ghost written': seq<byte>)
    requires r.Valid() && at < |r.buffers|
    requires LaidOut(r, at, c, adv, written) && SoftwareOwned(r, at, adv + 1)
    requires c.bufferOffset == 0 ==> adv == 0
    ensures LaidOut(r, at, c', adv', written')
    ensures copied <= |seg| && written' == written + seg[..copied]
    ensures ok ==> && |seg| - copied + c'.bufferOffset <= r.slotSize
                   && SoftwareOwned(r, at, adv' + 1)
                   && (c'.bufferOffset == 0 && adv' > 0 ==> copied < |seg|)
    ensures !ok ==> && copied < |seg| && c'.bufferOffset == 0
                    && r.owners[Advance(|r.buffers|, at, adv')] == Dma
                    && SoftwareOwned(r, at, adv')
  {
    var N := |c.ring.buffers|;
    var S := c.ring.slotSize;
    c' := c;
    adv' := adv;
    written' := written;
    copied := 0;
    assert seg[..0] == [];
    while |seg| - copied + c'.bufferOffset > S
      invariant copied <= |seg|
      invariant LaidOut(r, at, c', adv', written')
      invariant SoftwareOwned(r, at, adv' + 1)
      invariant written' == written + seg[..copied]
      invariant c'.bufferOffset == 0 && adv' > 0 ==> copied < |seg|
      decreases |seg| - copied + c'.bufferOffset
    {
      var chunk := S - c'.bufferOffset;
      FillThenAdvance(r, at, c', seg, copied, chunk, adv', written', written);
      c' := Cursor(WriteAt(c'.ring, c'.desc, c'.bufferOffset, seg[copied..copied + chunk]), Next(N, c'.desc), 0);
      written' := written + seg[..copied + chunk];
      adv' := adv' + 1;
      copied := copied + chunk;
      if c'.ring.owners[c'.desc] == Dma {
        // buffer unavailable
        return false, c', copied, adv', written';
      }
    }
    return true, c', copied, adv', written';
  }

  /** One pass of the copy loop of `lowLevelOutput`, for one segment: refuses (`ok` false) if the
      current descriptor is DMA-owned, then copies `seg` from the cursor on, crossing into the next
      descriptor whenever the current buffer is full, and stops (`ok` false) on entering a
      DMA-owned descriptor. */
  method CopySegment(ghost r: Ring, ghost at: nat, c: Cursor, seg: seq<byte>, ghost adv: nat, ghost written: seq<byte>)
    returns (ok: bool, c': Cursor, copied: nat, ghost adv': nat, ghost written': seq<byte>)
    requires r.Valid() && at < |r.buffers|
    requires LaidOut(r, at, c, adv, written) && SoftwareOwned(r, at, adv)
    requires c.bufferOffset == 0 ==> adv == 0
    requires c.bufferOffset > 0 ==> SoftwareOwned(r, at, adv + 1)
    ensures LaidOut(r, at, c', adv', written')
    ensures copied <= |seg| && (ok ==> copied == |seg|)
    ensures !ok ==> c'.bufferOffset == 0 && c'.ring.owners[c'.desc] == Dma
    ensures ok ==> && written' == written + seg
                   && (c'.bufferOffset == 0 ==> adv' == 0)
                   && SoftwareOwned(r, at, adv' + 1)
    ensures !ok ==> && |written| <= |written'| <= |written| + |seg|
                    && (adv' == 0 || |written'| < |written| + |seg|)
                    && written' == written + seg[..|written'| - |written|]
                    && c'.bufferOffset == 0
                    && r.owners[Advance(|r.buffers|, at, adv')] == Dma
                    && SoftwareOwned(r, at, adv')
  {
    if c.ring.owners[c.desc] == Dma {
      // buffer unavailable
      assert seg[..0] == [];
      return false, c, 0, adv, written;
    }
    ok, c', copied, adv', written' := FillBuffers(r, at, c, seg, adv, written);
    if !ok {
      return;
    }
    var bytesLeft := |seg| - copied;
    var bytes := seg[copied..];
    CopyKeepsLaidOut(r, at, c', bytes, adv', written');
    c' := Cursor(WriteAt(c'.ring, c'.desc, c'.bufferOffset, bytes), c'.desc, c'.bufferOffset + bytesLeft);
    assert seg[..copied] + bytes == seg;
    written' := written' + bytes;
    copied := |seg|;
  }

  /** The copy loop of `lowLevelOutput`. `ok` is false when it stopped at a DMA-owned descriptor;
      `frameLength` is the number of bytes it copied. */
  method CopyToRing(r: Ring, at: nat, chain: Chain) returns (ok: bool, r': Ring, frameLength: nat)
    requires r.Valid() && at < |r.buffers|
    ensures r'.Valid() && |r'.buffers| == |r.buffers| && r'.slotSize == r.slotSize
    ensures forall i :: 0 <= i < |r.buffers| ==> r'.owners[i] == r.owners[i]
    ensures forall i :: 0 <= i < |r.buffers| && r.owners[i] == Dma ==> r'.buffers[i] == r.buffers[i]
    ensures !ok <==> Blocked(r, at, chain)
    ensures ok ==> frameLength == |Flatten(chain)| && r' == WriteStream(r, at, Flatten(chain))
    ensures !ok ==> exists k: nat :: FirstBlocked(r, at, chain, k)
                                && r' == WriteStream(r, at, Flatten(chain)[..k * r.slotSize])
  {
    var c := Cursor(r, at, 0);
    frameLength := 0;
    ghost var adv: nat := 0;
    ghost var written: seq<byte> := [];
    WritePrefixEmpty(r, at);
    var j: nat := 0;
    while j < |chain|
      invariant j <= |chain|
      invariant LaidOut(r, at, c, adv, written)
      invariant written == Flatten(chain[..j])
      invariant frameLength == |written|
      invariant c.bufferOffset == 0 ==> adv == 0
      invariant SoftwareOwned(r, at, adv) && (j > 0 ==> SoftwareOwned(r, at, adv + 1))
    {
      var segOk, copied;
      ghost var before := written;
      segOk, c, copied, adv, written := CopySegment(r, at, c, chain[j], adv, written);
      if !segOk {
        StoppedAt(r, at, chain, j, |written| - |before|, c, adv, written);
        return false, c.ring, frameLength;
      }
      frameLength := frameLength + copied;
      FlattenStep(chain, j);
      j := j + 1;
    }
    assert chain[..j] == chain;
    Completed(r, at, chain, c, adv, written);
    return true, c.ring, frameLength;
  }

  /** The copy stopped on entering the DMA-owned `adv`-th descriptor, after filling the ones
      before it: that descriptor is the first one blocking the frame. */
  lemma {:induction false} StoppedAt(r: Ring, at: nat, chain: Chain, j: nat, po: nat, c: Cursor, adv: nat, written: seq<byte>)
    requires r.Valid() && at < |r.buffers|
    requires j < |chain| && po <= |chain[j]|
    requires written == Flatten(chain[..j]) + chain[j][..po]
    requires LaidOut(r, at, c, adv, written) && c.bufferOffset == 0
    requires adv == 0 || |written| < |Flatten(chain[..j])| + |chain[j]|
    requires r.owners[c.desc] == Dma && SoftwareOwned(r, at, adv)
    ensures Blocked(r, at, chain) && FirstBlocked(r, at, chain, adv)
    ensures c.ring == WriteStream(r, at, Flatten(chain)[..adv * r.slotSize])
    ensures forall i :: 0 <= i < |r.buffers| && r.owners[i] == Dma ==> c.ring.buffers[i] == r.buffers[i]
  {
    FlattenPrefix(chain, j, po);
    if adv > 0 {
      LastPieceAtLeast(|Flatten(chain)|, adv, r.slotSize);
    }
    WriteStreamSparesDma(r, at, written, adv);
  }

  /** The copy went through the whole chain, every descriptor it entered software-owned: the
      frame is not blocked, the ring holds all of it and no DMA-owned buffer was touched. */
  lemma {:induction false} Completed(r: Ring, at: nat, chain: Chain, c: Cursor, adv: nat, written: seq<byte>)
    requires r.Valid() && at < |r.buffers|
    requires written == Flatten(chain)
    requires LaidOut(r, at, c, adv, written)
    requires c.bufferOffset == 0 ==> adv == 0
    requires |chain| > 0 ==> SoftwareOwned(r, at, adv + 1)
    ensures !Blocked(r, at, chain)
    ensures c.ring == WriteStream(r, at, Flatten(chain))
    ensures forall i :: 0 <= i < |r.buffers| && r.owners[i] == Dma ==> c.ring.buffers[i] == r.buffers[i]
  {
    var S := r.slotSize;
    if c.bufferOffset > 0 {
      LastPieceOf(adv, c.bufferOffset, S);
    }
    assert |written| <= (adv + 1) * S;
    if |chain| > 0 {
      WriteStreamSparesDma(r, at, written, adv + 1);
    } else {
      WriteStreamSparesDma(r, at, written, 0);
    }
  }

  /** One call of `lowLevelOutput`. It returns `ERR_USE`, without calling the transmit trigger,
      iff a descriptor the frame needs is DMA-owned; it never writes into a DMA-owned descriptor
      nor changes any ownership bit. On success the TX buffers hold the frame laid out from the
      current TX descriptor and the transmit trigger gets the sum of the segment lengths. On every
      path TUS ends up clear and transmission is resumed iff TUS was set. */
  method LowLevelOutput(s: TxState, chain: Chain) returns (o: TxOutcome)
    requires s.ring.Valid() && s.txDesc < |s.ring.buffers|
    ensures o.state.ring.Valid() && |o.state.ring.buffers| == |s.ring.buffers|
    ensures o.state.txDesc == s.txDesc
    ensures forall i :: 0 <= i < |s.ring.buffers| ==> o.state.ring.owners[i] == s.ring.owners[i]
    ensures forall i :: 0 <= i < |s.ring.buffers| && s.ring.owners[i] == Dma ==>
              o.state.ring.buffers[i] == s.ring.buffers[i]
    ensures o.err == ErrUse <==> Blocked(s.ring, s.txDesc, chain)
    ensures o.err == ErrUse <==> o.transmitted == None
    ensures o.err == ErrOk ==>
              && o.transmitted == Some(Sum(Lengths(chain)))
              && o.state.ring == WriteStream(s.ring, s.txDesc, Flatten(chain))
    ensures o.err == ErrUse ==>
              exists k: nat :: FirstBlocked(s.ring, s.txDesc, chain, k)
                          && o.state.ring == WriteStream(s.ring, s.txDesc, Flatten(chain)[..k * s.ring.slotSize])
    ensures !o.state.tus && o.resumed == s.tus
  {
    var ok, ring, frameLength := CopyToRing(s.ring, s.txDesc, chain);
    // scope guard: clear TUS (write-one-to-clear) and resume transmission if it was set
    var resumed := s.tus;
    if ok {
      FlattenLength(chain);
      o := TxOutcome(ErrOk, Some(frameLength), TxState(ring, s.txDesc, false), resumed);
    } else {
      o := TxOutcome(ErrUse, None, TxState(ring, s.txDesc, false), resumed);
    }
  }
}
