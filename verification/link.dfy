/**
 The link monitor of the Ethernet input thread: when the thread's wait for a received frame times
 out, it polls the LAN8720A PHY and brings the network interface's link state and the MAC's
 speed and duplex configuration in line with it.

 A PHY register read (`HAL_ETH_ReadPHYRegister`) is foreign and asserted to succeed; the model
 takes the PHY's register file as a total function from register index to 32-bit value and
 reports which registers were read.
 */
module LinkMonitor {

  /** A 32-bit PHY register value, as read into a `uint32_t`. */
  type Register = bv32

  /** LAN8720A Basic Status Register index. */
  const PhyBsr: nat := 1
  /** LAN8720A PHY Special Control/Status Register index. */
  const PhySr: nat := 31

  /** Auto-Negotiate Complete bit of the Basic Status Register. */
  const PhyAutonegoComplete: Register := 1 << 5
  /** Link Status bit of the Basic Status Register. */
  const PhyLinkedStatus: Register := 1 << 2
  /** Full-duplex bit of the Speed Indication field of the Special Control/Status Register. */
  const PhyDuplexStatus: Register := 1 << 4
  /** Speed bit of the Speed Indication field of the Special Control/Status Register. */
  const PhySpeedStatus: Register := 1 << 2

  datatype Speed = Speed10M | Speed100M
  datatype DuplexMode = HalfDuplex | FullDuplex

  /** The speed and duplex mode the MAC is configured with (`Init.Speed`, `Init.DuplexMode`). */
  datatype MacConfig = MacConfig(speed: Speed, duplex: DuplexMode)

  /** The interface's link flag (`netif_is_link_up`) and the MAC configuration. */
  datatype LinkState = LinkState(up: bool, mac: MacConfig)

  /** The notification the stack gets: none, `netif_set_link_down` or `netif_set_link_up`. */
  datatype LinkEvent = NoChange | LinkDown | LinkUp

  /** The state after a poll, the notification given, and the PHY registers read, in order. */
  datatype PollOutcome = PollOutcome(state: LinkState, event: LinkEvent, phyReads: seq<nat>)

  /** Bit `k` of a register. */
  function Bit(x: Register, k: nat): bool
    requires k < 32
  {
    (x >> k) & 1 == 1
  }

  /** One link poll of `ethernetInterfaceInput` (its timeout branch). The link counts as up iff
      the Basic Status Register has both the link-status bit (2) and the auto-negotiation-complete
      bit (5) set. The stack is notified only when that differs from the interface's flag; on a
      transition to up, and only then, the Special Control/Status Register is read and the MAC is
      reconfigured: 100 Mbit/s iff its bit 2 is clear, full duplex iff its bit 4 is set. */
  function LinkPoll(s: LinkState, phy: nat -> Register): (o: PollOutcome)
    ensures o.state.up <==> Bit(phy(PhyBsr), 2) && Bit(phy(PhyBsr), 5)
    ensures o.event == NoChange <==> o.state.up == s.up
    ensures o.event == LinkUp <==> !s.up && o.state.up
    ensures o.event == LinkDown <==> s.up && !o.state.up
    ensures o.phyReads == if o.event == LinkUp then [PhyBsr, PhySr] else [PhyBsr]
    ensures o.event == LinkUp ==>
              && (o.state.mac.speed == Speed100M <==> !Bit(phy(PhySr), 2))
              && (o.state.mac.duplex == FullDuplex <==> Bit(phy(PhySr), 4))
    ensures o.event != LinkUp ==> o.state.mac == s.mac
  {
    var basicStatus := phy(PhyBsr);
    var linkMask := PhyLinkedStatus | PhyAutonegoComplete;
    var linkStatus := basicStatus & linkMask == linkMask;
    if linkStatus == s.up then
      PollOutcome(s, NoChange, [PhyBsr])
    else if linkStatus then
      var specialStatus := phy(PhySr);
      var speed := if specialStatus & PhySpeedStatus == 0 then Speed100M else Speed10M;
      var duplex := if specialStatus & PhyDuplexStatus != 0 then FullDuplex else HalfDuplex;
      PollOutcome(LinkState(true, MacConfig(speed, duplex)), LinkUp, [PhyBsr, PhySr])
    else
      PollOutcome(s.(up := false), LinkDown, [PhyBsr])
  }

  /** Polling settles: with the PHY registers unchanged, a second poll notifies nothing, reads
      only the Basic Status Register and changes nothing. */
  lemma LinkPollSettles(s: LinkState, phy: nat -> Register)
    ensures LinkPoll(LinkPoll(s, phy).state, phy) == PollOutcome(LinkPoll(s, phy).state, NoChange, [PhyBsr])
  {
  }

  /** The MAC configuration after a transition to up depends on the Special Control/Status
      Register only through its bits 2 and 4. */
  lemma LinkUpConfigUsesTwoBits(s: LinkState, phy: nat -> Register, phy': nat -> Register)
    requires phy(PhyBsr) == phy'(PhyBsr)
    requires Bit(phy(PhySr), 2) == Bit(phy'(PhySr), 2) && Bit(phy(PhySr), 4) == Bit(phy'(PhySr), 4)
    ensures LinkPoll(s, phy) == LinkPoll(s, phy')
  {
  }
}
