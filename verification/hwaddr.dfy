/**
 The interface's MAC address, derived from the chip's 96-bit unique device ID in
 `ethernetInterfaceInitialize`: the two halves of the ID are XORed byte by byte into six bytes,
 and the first byte is then folded so that the address is locally administered (bit 1 of the
 first octet set) and unicast (bit 0 clear), keeping as much of the ID's entropy as fits.
 */
module HardwareAddress {
  import opened Bytes

  /** Length of the unique device ID in bytes. */
  const DeviceIdLength: nat := 12
  /** Length of a MAC address (`hwaddr_len`): half the device ID. */
  const HwAddrLength: nat := 6

  /** Bit `k` of a byte. */
  function Bit(x: byte, k: nat): bool
    requires k < 8
  {
    (x >> k) & 1 == 1
  }

  /** The first octet of a locally administered unicast address: bit 1 set, bit 0 clear. */
  predicate LocalUnicast(b: byte) {
    b & 0x3 == 0x2
  }

  /** The fold applied to the first octet: `0x2 | ((b << 2) ^ (b & 0xc0))` evaluated as C does,
      in `int` after promotion of the `uint8_t`, then stored back into a `uint8_t`. Bits 5..0 of
      `b` move up to bits 7..2, the two bits shifted out are XORed onto the two that replace
      them, and the low two bits become "locally administered, unicast". */
  function Fold(b: byte): (f: byte)
    ensures LocalUnicast(f)
    ensures forall k :: 2 <= k < 6 ==> Bit(f, k) == Bit(b, k - 2)
    ensures Bit(f, 6) == (Bit(b, 4) != Bit(b, 6))
    ensures Bit(f, 7) == (Bit(b, 5) != Bit(b, 7))
  {
    var promoted := b as bv16;
    var value := 0x2 | ((promoted << 2) ^ (promoted & 0xc0));
    (value & 0xff) as byte
  }

  /** The MAC address derivation of `ethernetInterfaceInitialize`: octet `i` is the XOR of ID
      bytes `i` and `i + 6`, and the first octet is then folded. */
  method DeriveHwAddr(id: seq<byte>) returns (hwaddr: seq<byte>)
    requires |id| == DeviceIdLength
    ensures |hwaddr| == HwAddrLength
    ensures forall i :: 1 <= i < HwAddrLength ==> hwaddr[i] == id[i] ^ id[i + HwAddrLength]
    ensures hwaddr[0] == Fold(id[0] ^ id[HwAddrLength])
    ensures LocalUnicast(hwaddr[0])
  {
    hwaddr := [];
    var i := 0;
    while i < HwAddrLength
      invariant i <= HwAddrLength && |hwaddr| == i
      invariant forall j :: 0 <= j < i ==> hwaddr[j] == id[j] ^ id[j + HwAddrLength]
    {
      hwaddr := hwaddr + [id[i] ^ id[i + HwAddrLength]];
      i := i + 1;
    }
    // make sure the address is locally administered and unicast
    hwaddr := hwaddr[0 := Fold(hwaddr[0])];
  }

  /** Every locally administered unicast first octet is reachable: `b >> 2` folds to `t`. */
  lemma FoldOnto(t: byte)
    requires LocalUnicast(t)
    ensures Fold(t >> 2) == t
  {
  }

  /** Exactly four ID values fold to each octet: two first octets fold alike iff they agree on
      bits 3..0 and differ in bits 4 and 6 alike and in bits 5 and 7 alike. */
  lemma FoldCollisions(x: byte, y: byte)
    ensures Fold(x) == Fold(y) <==>
              && (x ^ y) & 0x0f == 0
              && Bit(x ^ y, 4) == Bit(x ^ y, 6)
              && Bit(x ^ y, 5) == Bit(x ^ y, 7)
  {
  }
}
