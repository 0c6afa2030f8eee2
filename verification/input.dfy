/**
 The Ethernet input thread (`ethernetInterfaceInput`). Each pass of its endless loop waits up to
 one second for the "frame received" semaphore and then, with the stack's core lock held:
 - when woken by a received frame, drains the RX ring: it calls `lowLevelInput` until that
   returns null, hands every chain to the stack's input function, and frees the chains the
   stack refuses;
 - when the wait times out, polls the PHY for the link state;
 - when the wait fails in any other way, does nothing.

 The semaphore, the lock and the thread are left out; the wait's result is an input. So are the
 HAL's frame reports, the allocator's answers and the stack's verdicts, one `RxPoll` per call of
 `lowLevelInput` (calls past the end of the list find no frame).
 */
module InputThread {
  import opened Wrappers
  import opened DescriptorRing
  import opened BufferChain
  import opened FrameReceiver
  import opened LinkMonitor

  /** The result of `tryWaitFor(1 s)` on the semaphore: 0, `ETIMEDOUT`, or any other error. */
  datatype Wake = Signalled | TimedOut | WaitFailed

  /** What the environment answers to one call of `lowLevelInput` and to the frame it yields:
      the frame record `HAL_ETH_GetReceivedFrame_IT` reports (`None` when it reports no complete
      frame), the segment lengths `pbuf_alloc` hands out (`None` on failure), and whether the
      stack's input function accepts the chain (returns `ERR_OK`). */
  datatype RxPoll = RxPoll(ready: Option<RxFrameInfo>, alloc: Option<seq<nat>>, accepted: bool)

  /** What the HAL and the allocator guarantee about one answer: the reported frame fits the
      ring, and an allocated chain is as long as the frame. */
  predicate PollFits(r: Ring, p: RxPoll) {
    p.ready.Some? ==>
      && InfoFits(r, p.ready.value)
      && (p.alloc.Some? ==> Sum(p.alloc.value) == p.ready.value.length)
  }

  /** `lowLevelInput` returns a chain for this answer: a complete, non-empty frame was reported
      and the allocation succeeded. */
  predicate YieldsFrame(p: RxPoll) {
    p.ready.Some? && p.ready.value.length > 0 && p.alloc.Some?
  }

  /** The chain `lowLevelInput` returns for an answer that yields one: the frame read from the
      ring, cut into the allocated segment lengths. */
  function FrameOf(r: Ring, p: RxPoll): Chain
    requires r.Valid() && PollFits(r, p) && YieldsFrame(p)
  {
    Split(ReadStream(r, p.ready.value.firstDesc, p.ready.value.length), p.alloc.value)
  }

  /** The chains of `handed` whose answers the stack refused, in order: those are freed. */
  function Refused(handed: seq<Chain>, polls: seq<RxPoll>): (freed: seq<Chain>)
    requires |handed| <= |polls|
    ensures |freed| <= |handed|
    decreases |handed|
  {
    if |handed| == 0 then []
    else
      var n := |handed| - 1;
      Refused(handed[..n], polls) + (if polls[n].accepted then [] else [handed[n]])
  }

  /** The first `n` answers all yield a chain, and the one after them, if any, does not. */
  predicate DrainStopsAt(polls: seq<RxPoll>, n: nat) {
    && n <= |polls|
    && (forall k :: 0 <= k < n ==> YieldsFrame(polls[k]))
    && (n < |polls| ==> !YieldsFrame(polls[n]))
  }

  /** Every descriptor of the frame the answer reports, if it reports one, is DMA-owned in `r`. */
  predicate Released(r: Ring, p: RxPoll) {
    p.ready.Some? && InfoFits(r, p.ready.value) ==>
      forall i :: 0 <= i < |r.buffers| && Dist(|r.buffers|, p.ready.value.firstDesc, i) < p.ready.value.segCount ==>
        r.owners[i] == Dma
  }

  /** Handing more descriptors to the DMA engine keeps released frames released. */
  lemma ReleasedStays(r: Ring, r': Ring, p: RxPoll)
    requires r.Valid() && r'.Valid() && |r'.buffers| == |r.buffers| && r'.slotSize == r.slotSize
    requires forall i :: 0 <= i < |r.buffers| && r.owners[i] == Dma ==> r'.owners[i] == Dma
    requires Released(r, p)
    ensures Released(r', p)
  {
  }

  /** One call of `lowLevelInput` inside the drain, given the environment's answer (`None` past
      the end of the list): with a reported frame, the HAL records it in the state first. The
      call returns a chain iff the answer yields one, and that chain is the frame of the original
      ring `r0`, whose buffers the drain never changes. */
  method ReceiveOne(ghost r0: Ring, s: RxState, p: Option<RxPoll>) returns (o: RxOutcome)
    requires r0.Valid() && s.ring.Valid() && s.ring.buffers == r0.buffers && s.ring.slotSize == r0.slotSize
    requires p.Some? ==> PollFits(r0, p.value)
    ensures o.frame.Some? <==> p.Some? && YieldsFrame(p.value)
    ensures o.frame.Some? ==> o.frame.value == FrameOf(r0, p.value)
    ensures o.state.ring.Valid() && o.state.ring.buffers == r0.buffers && o.state.ring.slotSize == r0.slotSize
    ensures forall i :: 0 <= i < |s.ring.buffers| && s.ring.owners[i] == Dma ==> o.state.ring.owners[i] == Dma
    ensures p.Some? ==> Released(o.state.ring, p.value)
  {
    if p.Some? && p.value.ready.Some? {
      var info := p.value.ready.value;
      var st := s.(info := info);
      o := LowLevelInput(st, true, p.value.alloc);
      if o.frame.Some? {
        ReadStreamBuffersOnly(r0, st.ring, info.firstDesc, info.length);
      }
    } else {
      o := LowLevelInput(s, false, None);
    }
  }

  /** What the drain has established after handing over `handed`: each chain is the frame of
      its answer, `freed` are the refused ones, the buffers are as they were, DMA-owned
      descriptors stayed DMA-owned, and every reported frame's descriptors are released. */
  predicate Drained(s: RxState, polls: seq<RxPoll>, handed: seq<Chain>, freed: seq<Chain>, cur: RxState)
    requires s.ring.Valid()
    requires forall k :: 0 <= k < |polls| ==> PollFits(s.ring, polls[k])
  {
    && |handed| <= |polls|
    && (forall k :: 0 <= k < |handed| ==> YieldsFrame(polls[k]) && handed[k] == FrameOf(s.ring, polls[k]))
    && freed == Refused(handed, polls)
    && cur.ring.Valid() && cur.ring.buffers == s.ring.buffers && cur.ring.slotSize == s.ring.slotSize
    && (forall i :: 0 <= i < |s.ring.buffers| && s.ring.owners[i] == Dma ==> cur.ring.owners[i] == Dma)
    && (forall k :: 0 <= k < |handed| ==> Released(cur.ring, polls[k]))
  }

  /** One turn of the drain loop: one call of `lowLevelInput`, and, if it returned a chain,
      handing it to the stack and freeing it if refused. `stop` is the null return. */
  method DrainStep(s: RxState, polls: seq<RxPoll>, handed: seq<Chain>, freed: seq<Chain>, cur: RxState)
    returns (stop: bool, handed': seq<Chain>, freed': seq<Chain>, cur': RxState)
    requires s.ring.Valid()
    requires forall k :: 0 <= k < |polls| ==> PollFits(s.ring, polls[k])
    requires Drained(s, polls, handed, freed, cur)
    ensures Drained(s, polls, handed', freed', cur')
    ensures stop ==> && handed' == handed
                     && (|handed| < |polls| ==> !YieldsFrame(polls[|handed|]) && Released(cur'.ring, polls[|handed|]))
    ensures !stop ==> |handed'| == |handed| + 1
  {
    var k := |handed|;
    var o := ReceiveOne(s.ring, cur, if k < |polls| then Some(polls[k]) else None);
    forall j | 0 <= j < k {
      ReleasedStays(cur.ring, o.state.ring, polls[j]);
    }
    cur' := o.state;
    if o.frame.None? {
      return true, handed, freed, cur';
    }
    var pbuf := o.frame.value;
    handed' := handed + [pbuf];
    assert handed'[..k] == handed;
    freed' := freed;
    if !polls[k].accepted {
      // the stack refused the chain: pbuf_free
      freed' := freed + [pbuf];
    }
    stop := false;
  }

  /** The frame-received branch of `ethernetInterfaceInput`: calls `lowLevelInput` until it
      returns null. `handed` are the chains passed to the stack, in order: one per answer up to
      the first that yields none, each the frame read from the ring in the allocated shape.
      `freed` are those the stack refused. The RX buffers are never written, the drain only ever
      hands descriptors to the DMA engine, and afterwards every descriptor of every frame it was
      reported, the last one included even when its chain was dropped, is DMA-owned. */
  method Drain(s: RxState, polls: seq<RxPoll>) returns (handed: seq<Chain>, freed: seq<Chain>, s': RxState)
    requires s.ring.Valid()
    requires forall k :: 0 <= k < |polls| ==> PollFits(s.ring, polls[k])
    ensures DrainStopsAt(polls, |handed|)
    ensures Drained(s, polls, handed, freed, s')
    ensures |handed| < |polls| ==> Released(s'.ring, polls[|handed|])
  {
    s' := s;
    handed := [];
    freed := [];
    var stop := false;
    while !stop
      invariant Drained(s, polls, handed, freed, s')
      invariant stop ==> |handed| < |polls| ==> !YieldsFrame(polls[|handed|]) && Released(s'.ring, polls[|handed|])
      decreases |polls| - |handed|, if stop then 0 else 1
    {
      stop, handed, freed, s' := DrainStep(s, polls, handed, freed, s');
    }
  }

  /** The state the input thread works on: the RX side of the MAC and the interface's link. */
  datatype InputState = InputState(rx: RxState, link: LinkState)

  /** What one pass produces: the state afterwards, the chains handed to and freed by the stack,
      the link notification given and the PHY registers read. */
  datatype PassOutcome = PassOutcome(state: InputState, handed: seq<Chain>, freed: seq<Chain>,
                                     event: LinkEvent, phyReads: seq<nat>)

  /** One pass of the endless loop of `ethernetInterfaceInput`. Frames are taken from the ring
      only when the wait was signalled, the PHY is read only when it timed out, and a failed wait
      changes nothing. */
  method InputPass(st: InputState, wake: Wake, polls: seq<RxPoll>, phy: nat -> Register) returns (o: PassOutcome)
    requires st.rx.ring.Valid()
    requires forall k :: 0 <= k < |polls| ==> PollFits(st.rx.ring, polls[k])
    ensures wake != Signalled ==> o.handed == [] && o.freed == [] && o.state.rx == st.rx
    ensures wake != TimedOut ==> o.event == NoChange && o.phyReads == [] && o.state.link == st.link
    ensures wake == Signalled ==>
              && DrainStopsAt(polls, |o.handed|)
              && Drained(st.rx, polls, o.handed, o.freed, o.state.rx)
              && (|o.handed| < |polls| ==> Released(o.state.rx.ring, polls[|o.handed|]))
    ensures wake == TimedOut ==>
              && o.state.link == LinkPoll(st.link, phy).state
              && o.event == LinkPoll(st.link, phy).event
              && o.phyReads == LinkPoll(st.link, phy).phyReads
  {
    match wake {
      case Signalled =>
        var handed, freed, rx := Drain(st.rx, polls);
        o := PassOutcome(InputState(rx, st.link), handed, freed, NoChange, []);
      case TimedOut =>
        var poll := LinkPoll(st.link, phy);
        o := PassOutcome(InputState(st.rx, poll.state), [], [], poll.event, poll.phyReads);
      case WaitFailed =>
        o := PassOutcome(st, [], [], NoChange, []);
    }
  }
}
