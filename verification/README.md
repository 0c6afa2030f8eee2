# STM32F7 Ethernet driver core, modelled in Dafny

This project models the sequential core of the STM32F7 Ethernet MAC driver that connects the HAL's
DMA descriptor rings to the lwIP network stack (`ethernetInterfaceInitialize.cpp`), and proves
properties of the model:

- **Frame receiver** (`lowLevelInput`). It copies one completed frame out of the RX descriptor
  ring into a freshly allocated chained buffer (`pbuf` chain), crossing into the next descriptor
  whenever a buffer is exhausted. It then gives the frame's `SegCount` descriptors back to the
  DMA engine, clears `SegCount`, and, when the "receive buffer unavailable" (RBUS) flag is set,
  clears it and resumes reception.
- **Frame transmitter** (`lowLevelOutput`). It scatters an outgoing chain into the TX descriptor
  ring and refuses (`ERR_USE`) as soon as the descriptor it is about to write into is owned by
  the DMA engine. On success it calls the transmit trigger with the frame length. On every exit
  a scope guard clears the "transmit underflow" (TUS) flag and resumes transmission if the flag
  was set.
- **Input thread** (`ethernetInterfaceInput`), one pass of its endless loop.
  - When the wait was signalled, it drains frames until `lowLevelInput` returns null and frees
    the ones the stack refuses.
  - On timeout, it polls the LAN8720A PHY. The link is up iff the Basic Status Register (1) has
    Link Status (bit 2) and Auto-Negotiate Complete (bit 5) set. On a transition to up it reads
    the Special Control/Status Register (31) and reconfigures the MAC: 100 Mbit/s iff bit 2 is
    clear, full duplex iff bit 4 is set. The register indexes and masks are those of
    `STM32F7xx_HAL_Driver-configuration.h` lines 55, 58, 71, 74, 79 and 82.
- **MAC address derivation** in `ethernetInterfaceInitialize`. Octet `i` is the XOR of bytes `i`
  and `i + 6` of the 12-byte unique device ID. The first octet is then folded by
  `0x2 | ((b << 2) ^ (b & 0xc0))`, so the address is locally administered and unicast.

Modules, one per file:

| file | module | what it holds |
|---|---|---|
| `bytes.dfy` | `Bytes` | the `byte` type (`uint8_t`) |
| `wrappers.dfy` | `Wrappers` | `Option` |
| `ring.dfy` | `DescriptorRing` | the ring, ring order, the reference layouts `ReadStream` / `WriteStream` and their lemmas |
| `chain.dfy` | `BufferChain` | the chained buffer, `Flatten`, `Sum`, and the reference cut `Split` |
| `receive.dfy` | `FrameReceiver` | `lowLevelInput` |
| `transmit.dfy` | `FrameTransmitter` | `lowLevelOutput` |
| `link.dfy` | `LinkMonitor` | the PHY link poll |
| `input.dfy` | `InputThread` | the drain and one pass of the input thread |
| `hwaddr.dfy` | `HardwareAddress` | the MAC address derivation |

A ring is a sequence of ownership flags and a sequence of equal-sized buffers. The descriptor
after `i` is `(i + 1) % N`. A frame laid out from descriptor `at` fills one slot after another
from offset 0. `ReadStream` is that layout read back (receive). `WriteStream` is that layout
written, with later slots overwriting earlier ones if the frame wraps (transmit). The copy loops
are proved against these two reference definitions, and `ReadWriteRoundTrip` connects them.

## Model

| member | source | states |
|---|---|---|
| `FrameReceiver.LowLevelInput` | ethernetInterfaceInitialize.cpp:205-264 | With no completed frame: returns null and changes nothing, not even a flag. Otherwise: a chain iff the frame is non-empty and allocation succeeded. The chain has the allocated segment lengths, and its bytes are the frame read from the ring (exactly `Split` of that stream). Exactly the `SegCount` descriptors from the first one become DMA-owned, no buffer and no other descriptor changes, `SegCount` becomes 0, RBUS ends clear, and reception is resumed iff RBUS was set. |
| `FrameReceiver.CopyFromRing` | ethernetInterfaceInitialize.cpp:215-243 | The chain has exactly the requested segment lengths. Its concatenated bytes equal the ring read from offset 0 of the first descriptor for the total length. The cursor ends on the descriptor holding the frame's last byte. |
| `FrameReceiver.ReadSegment` | ethernetInterfaceInitialize.cpp:222-241 | One segment's payload has the segment's length and continues the frame's byte stream. The read offset never exceeds the slot size. The cursor moves on only when a slot is exhausted, and a segment never ends on a fresh, unread slot. |
| `FrameReceiver.ReadChunkThenAdvance` | ethernetInterfaceInitialize.cpp:225-236 | Copying the rest of the current slot and advancing to the next descriptor keeps the copied bytes equal to the ring stream. |
| `FrameReceiver.ReadAppendKeepsReadUpTo` | ethernetInterfaceInitialize.cpp:239-241 | The closing partial copy of a segment keeps the copied bytes equal to the ring stream. |
| `FrameReceiver.ReleaseDescriptors` | ethernetInterfaceInitialize.cpp:245-252 | Descriptor `i` becomes DMA-owned iff it is among the `count` descriptors from the first in ring order. Every other flag and every buffer is unchanged. |
| `FrameReceiver.FrameStaysInSegments` | ethernetInterfaceInitialize.cpp:220-242 | Given the HAL's bound `length <= SegCount * slot size`, the last byte copied lies in one of the frame's own `SegCount` descriptors. |
| `FrameReceiver.InFrameIsPrefixOfRing` | ethernetInterfaceInitialize.cpp:246-252 | The released descriptors are exactly the first `SegCount` in ring order: the `k`-th descriptor after the first is released iff `k < SegCount`. |
| `FrameTransmitter.LowLevelOutput` | ethernetInterfaceInitialize.cpp:282-336 | Returns `ERR_USE` iff a descriptor the frame needs is DMA-owned, and then does not call the transmit trigger. No ownership flag changes and no DMA-owned buffer is written. On success the trigger gets the sum of the segment lengths and the TX slots hold the concatenated payloads laid out from the current descriptor. On `ERR_USE` the slots hold the frame up to the first blocking descriptor. TUS ends clear, and transmission is resumed iff TUS was set. |
| `FrameTransmitter.CopyToRing` | ethernetInterfaceInitialize.cpp:295-331 | Stops iff some descriptor among those the frame needs is DMA-owned. If it stops, the ring holds the frame's first `k` slots, where `k` is the first such descriptor and all before it are software-owned. Otherwise the ring holds the whole frame and `frameLength` is its length. DMA-owned buffers are never written. |
| `FrameTransmitter.CopySegment` | ethernetInterfaceInitialize.cpp:300-331 | One segment extends the laid-out bytes by exactly the segment when it completes. When it stops, it has written an opening part of the segment and stands at offset 0 of a DMA-owned descriptor, and every descriptor before it is software-owned. |
| `FrameTransmitter.FillBuffers` | ethernetInterfaceInitialize.cpp:308-325 | The inner loop copies whole slot remainders and advances. It stops on entering a DMA-owned descriptor, or when the rest of the segment fits the current slot. The write offset never exceeds the slot size. |
| `FrameTransmitter.FillThenAdvance` | ethernetInterfaceInitialize.cpp:310-321 | Filling the rest of the current slot and advancing keeps the ring equal to the frame written so far. |
| `FrameTransmitter.CopyKeepsLaidOut` | ethernetInterfaceInitialize.cpp:327-329 | A `memcpy` at the write offset of the current slot extends the laid-out frame by exactly those bytes. |
| `FrameTransmitter.StoppedAt` | ethernetInterfaceInitialize.cpp:300-318 | Refusing on entering a DMA-owned descriptor means the frame is blocked at its first DMA-owned descriptor, and no DMA-owned buffer was written. |
| `FrameTransmitter.Completed` | ethernetInterfaceInitialize.cpp:300-333 | Finishing the chain means no descriptor the frame needs was DMA-owned, the ring holds the whole frame, and no DMA-owned buffer was written. |
| `DescriptorRing.ReadWriteRoundTrip` | ethernetInterfaceInitialize.cpp:300-331 | A frame no longer than the ring, laid out from a descriptor as the TX copy does and read back as the RX copy does, is the frame itself. |
| `DescriptorRing.WriteStreamSparesDma` | ethernetInterfaceInitialize.cpp:302-318 | Laying out a frame over `m` slots whose descriptors are all software-owned leaves every DMA-owned buffer untouched. |
| `DescriptorRing.WriteStreamExtend` | ethernetInterfaceInitialize.cpp:327-330 | Copying bytes at the write position of a partly laid-out frame lays out the longer frame. |
| `DescriptorRing.WriteStreamFrame` | ethernetInterfaceInitialize.cpp:308-330 | Laying out a frame leaves every slot beyond its last piece untouched. |
| `DescriptorRing.ReadStreamAppend` | ethernetInterfaceInitialize.cpp:228-240 | Reading `m` more bytes from offset `off` of the `k`-th slot extends the frame stream by exactly those bytes. |
| `DescriptorRing.ReadStreamBuffersOnly` | ethernetInterfaceInitialize.cpp:246-252 | Reading a frame depends only on the buffers, so handing descriptors back to the DMA engine does not change the frames read. |
| `DescriptorRing.NextModular` | ethernetInterfaceInitialize.cpp:232 | Following a descriptor's next link is the successor modulo the ring size. |
| `BufferChain.SplitUnique` | ethernetInterfaceInitialize.cpp:220-242 | A chain is determined by its bytes and its segment lengths: cutting its bytes at its lengths gives it back. |
| `BufferChain.FlattenLength` | ethernetInterfaceInitialize.cpp:297-330 | A chain's bytes are as many as the sum of its segment lengths. |
| `LinkMonitor.LinkPoll` | ethernetInterfaceInitialize.cpp:368-403 | The link is up iff BSR bits 2 and 5 are both set. The stack is notified iff that differs from the interface's flag: up iff it went up, down iff it went down. Register 31 is read iff the link went up. Only then is the MAC reconfigured: 100 Mbit/s iff bit 2 of register 31 is clear, full duplex iff bit 4 is set. |
| `LinkMonitor.LinkPollSettles` | ethernetInterfaceInitialize.cpp:375-378 | With unchanged PHY registers, a second poll notifies nothing, reads only the BSR and changes nothing. |
| `LinkMonitor.LinkUpConfigUsesTwoBits` | ethernetInterfaceInitialize.cpp:382-391 | The poll depends on register 31 only through its bits 2 and 4. |
| `InputThread.Drain` | ethernetInterfaceInitialize.cpp:361-367 | The drain hands the stack one chain per answer, up to the first answer that yields none, each the frame read from the ring in the allocated shape. It frees exactly the refused chains, in order. It never writes an RX buffer and never takes a descriptor from the DMA engine. Every descriptor of every frame it was reported is DMA-owned afterwards. |
| `InputThread.DrainStep` | ethernetInterfaceInitialize.cpp:364-366 | One turn of the drain keeps the drain's invariant. It stops exactly at the null return and otherwise hands over one more chain. |
| `InputThread.ReceiveOne` | ethernetInterfaceInitialize.cpp:364 | A `lowLevelInput` call inside the drain returns a chain iff the answer yields one, and the chain is that answer's frame. It only adds DMA ownership, and it releases the reported frame's descriptors. |
| `InputThread.ReleasedStays` | ethernetInterfaceInitialize.cpp:364-366 | Later calls keep earlier frames' descriptors DMA-owned. |
| `InputThread.InputPass` | ethernetInterfaceInitialize.cpp:352-403 | Frames are taken only when the wait was signalled, and then as the drain states. The PHY is read only on timeout, and then as the link poll states. A failed wait changes nothing. |
| `HardwareAddress.DeriveHwAddr` | ethernetInterfaceInitialize.cpp:430-441 | Six octets. Octets 1 to 5 are `id[i] ^ id[i + 6]`. Octet 0 is the fold of `id[0] ^ id[6]` and is locally administered and unicast. |
| `HardwareAddress.Fold` | ethernetInterfaceInitialize.cpp:440 | Bit 1 is set and bit 0 is clear. Bits 5..2 are the input's bits 3..0. Bit 6 is bit 4 XOR bit 6 and bit 7 is bit 5 XOR bit 7 of the input, as C's promotion to `int` and truncation on the store to `uint8_t` give. |
| `HardwareAddress.FoldOnto` | ethernetInterfaceInitialize.cpp:438-440 | Every locally administered unicast first octet is the fold of some ID byte. |
| `HardwareAddress.FoldCollisions` | ethernetInterfaceInitialize.cpp:440 | Two ID bytes fold alike iff they agree on bits 3..0 and differ in bits 4 and 6 alike and in bits 5 and 7 alike: exactly four ID bytes per octet. |

## Left out

- Board bring-up: pin, clock and interrupt set-up and the MAC's low-level initialiser (`ethernetInterfaceInitialize.cpp` lines 57-195). This is register plumbing with no behaviour to state.
- The remaining interface initialisation in `ethernetInterfaceInitialize` (lines 422-428, 443-456, 458-509): interface name and callbacks, MTU, flags and the HAL `Init` fields. The PHY advertisement and auto-negotiation-enable read-modify-writes, descriptor list initialisation, thread creation and `HAL_ETH_Start` are left out too. These are plain assignments or foreign calls; only the MAC address derivation is modelled.
- Foreign HAL calls are inputs or outputs, not models:
  - `HAL_ETH_GetReceivedFrame_IT` is the frame record it reports, or none.
  - `HAL_ETH_ReadPHYRegister` is the PHY register file. The reads' `assert(ret == HAL_OK)` is taken as given.
  - `HAL_ETH_ConfigMAC` is the new speed and duplex together with the "link up" event.
  - `HAL_ETH_TransmitFrame` is the length it is called with. The descriptor hand-over it performs inside the HAL is not part of this model.
  - The interrupt handler and the RX-complete callback (lines 417-420, 517-520) are not modelled.
- The semaphore, the stack's core lock and the endless loop (lines 350-359) are concurrency. `InputPass` models one pass, with the wait's result as an input.
- lwIP internals are inputs too. `pbuf_alloc` is the segment lengths it hands out (summing to the requested length) or a failure. The stack's input function is a per-frame accept/refuse verdict, and `pbuf_free` is the list of freed chains.
- Ring and slot sizes are parameters of the ring. `ETH_RXBUFNB`, `ETH_TXBUFNB`, `ETH_RX_BUF_SIZE` and `ETH_TX_BUF_SIZE` are HAL configuration values that are not part of this model. The ring's chaining (`Buffer2NextDescAddr`, built by the HAL's descriptor-list initialisation) is taken to be circular in index order.
- `RxFrameInfos.buffer` is taken to be the buffer of `FSRxDesc` at offset 0, and a reported frame satisfies `length <= SegCount * slot size` and `SegCount <= N`. These are HAL guarantees and appear as preconditions (`InfoFits`).
- The DMA engine runs concurrently with the driver. The model treats each call as atomic: no ownership flag or buffer changes under a call except by the call itself.
- `size_t` and `uint32_t` counters are unbounded naturals. Frame lengths and offsets never come near their width, so no wrap-around is modelled.
- `InputThread.Drain`: over several frames it states only that DMA ownership is never withdrawn and that every reported frame's descriptors end DMA-owned. The exact set of descriptors each call hands back is stated per call by `FrameReceiver.LowLevelInput`.
- `InputThread.InputPass`: on a signalled wake it states the drained frames and the RX buffers, not the RX frame record left behind. That record is the HAL's, overwritten on the next report.

## Notes on the code

- The drain stops at the first null return of `lowLevelInput` (line 364). A failed allocation or a zero-length frame therefore ends the pass even if further completed frames are waiting. They are picked up on the next signal, and the input thread's design intent of draining "all ready frames" holds only when allocation succeeds. The model follows the code: `DrainStopsAt`.
- RBUS is checked and cleared on every call of `lowLevelInput`, not once per drain pass.
- Duplex is full iff bit 4 of register 31 is set. There is no separate "half duplex" pattern in the code.
- `STM32F7xx_HAL_Driver-configuration.h` line 81 calls bit 2 of register 31 the "100BASE-TX bit". The code treats that bit set as 10 Mbit/s, and the model follows the code. In the LAN8720A's speed indication field, bit 2 is the 10BASE-T bit, so the code's reading is the consistent one.
