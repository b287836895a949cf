/**
 * Locating the network header of a captured frame: a raw IP packet
 * (link type 1) or an Ethernet frame (link type 2), optionally carrying
 * one 802.1Q tag. On success the packet's network-header position is set
 * and, for IPv4, its destination-address annotation.
 *
 * A frame is a sequence of bytes; multi-byte fields are read big-endian.
 */
module IpHeaders {
  import opened FlowKeys

  const ETHERTYPE_IP: nat := 0x0800
  const ETHERTYPE_IP6: nat := 0x86DD
  const ETHERTYPE_8021Q: nat := 0x8100

  /** Link types the locator understands. */
  const DLT_RAW_IP: int := 1
  const DLT_ETHERNET: int := 2

  const ETHER_HEADER_LEN: nat := 14
  const ETHER_VLAN_HEADER_LEN: nat := 18
  /** Offset of the ethertype in an Ethernet header, and of the encapsulated type in a tagged one. */
  const ETHER_TYPE_OFFSET: nat := 12
  const VLAN_ENCAP_OFFSET: nat := 16
  const IP6_HEADER_LEN: nat := 40
  /** Offset of the destination address within an IPv4 header. */
  const IP_DST_OFFSET: nat := 16

  /** The two bytes at off read as a big-endian 16-bit number. */
  function UnalignedNetShort(d: seq<UInt8>, off: nat): (r: nat)
    requires off + 2 <= |d|
    ensures r < 0x1_0000
    ensures r / 256 == d[off] && r % 256 == d[off + 1]
  {
    (d[off] as int) * 256 + (d[off + 1] as int)
  }

  /** A 16-bit number as the two bytes of its big-endian encoding. */
  function NetShortBytes(v: nat): (b: seq<UInt8>)
    requires v < 0x1_0000
    ensures |b| == 2
  {
    [v / 256, v % 256]
  }

  /** Reading back an encoded 16-bit number gives the number. */
  lemma NetShortRoundTrip(v: nat)
    requires v < 0x1_0000
    ensures UnalignedNetShort(NetShortBytes(v), 0) == v
  {
  }

  /** Encoding the two bytes read at off gives those bytes back. */
  lemma NetShortBytesRoundTrip(d: seq<UInt8>, off: nat)
    requires off + 2 <= |d|
    ensures NetShortBytes(UnalignedNetShort(d, off)) == d[off..off + 2]
  {
  }

  /** The type field at off names IPv4 or IPv6. */
  predicate IsIpEthertype(d: seq<UInt8>, off: nat)
    requires off + 2 <= |d|
  {
    UnalignedNetShort(d, off) == ETHERTYPE_IP || UnalignedNetShort(d, off) == ETHERTYPE_IP6
  }

  /** Exactly the IPv4 and IPv6 ethertypes are accepted. */
  lemma IpEthertypeExact(d: seq<UInt8>, off: nat)
    requires off + 2 <= |d|
    ensures IsIpEthertype(d, off) <==> (d[off] == 0x08 && d[off + 1] == 0x00) || (d[off] == 0x86 && d[off + 1] == 0xDD)
  {
  }

  /** Four bytes at off read as a big-endian 32-bit address. */
  function ReadAddress(d: seq<UInt8>, off: nat): IPAddress
    requires off + 4 <= |d|
  {
    ((d[off] as bv32) << 24) | ((d[off + 1] as bv32) << 16) | ((d[off + 2] as bv32) << 8) | (d[off + 3] as bv32)
  }

  /**
   * Where the IP header starts, by link type: at 0 for a raw IP packet;
   * behind the Ethernet header when it fits and its type is IP or IPv6;
   * behind an 802.1Q header when the outer type is 0x8100, the tagged
   * header fits and the encapsulated type is IP or IPv6. A second tag is
   * not looked through.
   */
  function IpHeaderOffset(data: seq<UInt8>, dlt: int): (r: Option<nat>)
    ensures r.Some? ==> r.value <= |data|
    ensures dlt != DLT_RAW_IP && dlt != DLT_ETHERNET ==> r.None?
    ensures dlt == DLT_RAW_IP ==> r == Some(0)
    ensures dlt == DLT_ETHERNET && |data| < ETHER_HEADER_LEN ==> r.None?
    ensures dlt == DLT_ETHERNET && ETHER_HEADER_LEN <= |data| && IsIpEthertype(data, ETHER_TYPE_OFFSET) ==>
      r == Some(ETHER_HEADER_LEN)
    ensures (dlt == DLT_ETHERNET && ETHER_VLAN_HEADER_LEN <= |data|
             && UnalignedNetShort(data, ETHER_TYPE_OFFSET) == ETHERTYPE_8021Q
             && IsIpEthertype(data, VLAN_ENCAP_OFFSET)) ==> r == Some(ETHER_VLAN_HEADER_LEN)
    ensures dlt == DLT_ETHERNET && r.Some? ==>
      || (r.value == ETHER_HEADER_LEN && IsIpEthertype(data, ETHER_TYPE_OFFSET))
      || (r.value == ETHER_VLAN_HEADER_LEN && UnalignedNetShort(data, ETHER_TYPE_OFFSET) == ETHERTYPE_8021Q
          && IsIpEthertype(data, VLAN_ENCAP_OFFSET))
  {
    if dlt == DLT_RAW_IP then Some(0)
    else if dlt == DLT_ETHERNET then
      if ETHER_HEADER_LEN <= |data| then
        if IsIpEthertype(data, ETHER_TYPE_OFFSET) then Some(ETHER_HEADER_LEN)
        else if UnalignedNetShort(data, ETHER_TYPE_OFFSET) == ETHERTYPE_8021Q && ETHER_VLAN_HEADER_LEN <= |data| then
          if IsIpEthertype(data, VLAN_ENCAP_OFFSET) then Some(ETHER_VLAN_HEADER_LEN) else None
        else None
      else None
    else None
  }

  /**
   * The locator reads the first byte at the IP offset (the version) before
   * any length check there, so that byte must exist.
   */
  predicate VersionReadable(data: seq<UInt8>, dlt: int) {
    var off := IpHeaderOffset(data, dlt);
    off.Some? ==> off.value < |data|
  }

  /** The version (high nibble) and header length in words (low nibble) of the first IP byte. */
  function Version(b: UInt8): (v: nat)
    ensures v < 16
  {
    b / 16
  }

  function HeaderWords(b: UInt8): (w: nat)
    ensures w < 16
  {
    b % 16
  }

  /** A located network header: IPv4 with its length in bytes, or IPv6. */
  datatype NetworkHeader = Ipv4Header(offset: nat, length: nat) | Ipv6Header(offset: nat)

  /**
   * The header the locator accepts: IPv4 when the header length is at
   * least five words and the whole header fits; IPv6 when the 40-byte
   * fixed header fits; nothing for any other version.
   */
  function Locate(data: seq<UInt8>, dlt: int): (r: Option<NetworkHeader>)
    requires VersionReadable(data, dlt)
    ensures r.Some? ==> IpHeaderOffset(data, dlt).Some? && r.value.offset == IpHeaderOffset(data, dlt).value
    ensures r.Some? && r.value.Ipv4Header? ==>
      var off := r.value.offset;
      && Version(data[off]) == 4 && HeaderWords(data[off]) >= 5
      && r.value.length == HeaderWords(data[off]) * 4 && off + r.value.length <= |data|
    ensures r.Some? && r.value.Ipv6Header? ==>
      Version(data[r.value.offset]) == 6 && r.value.offset + IP6_HEADER_LEN <= |data|
  {
    match IpHeaderOffset(data, dlt)
    case None => None
    case Some(off) =>
      var b := data[off];
      if Version(b) == 4 then
        if HeaderWords(b) >= 5 && off + HeaderWords(b) * 4 <= |data| then Some(Ipv4Header(off, HeaderWords(b) * 4))
        else None
      else if Version(b) == 6 then
        if off + IP6_HEADER_LEN <= |data| then Some(Ipv6Header(off)) else None
      else None
  }

  /** Both directions of the acceptance rule, once the IP offset is known. */
  lemma LocateExact(data: seq<UInt8>, dlt: int)
    requires VersionReadable(data, dlt) && IpHeaderOffset(data, dlt).Some?
    ensures var off := IpHeaderOffset(data, dlt).value;
      var b := data[off];
      && (Locate(data, dlt).Some? && Locate(data, dlt).value.Ipv4Header? <==>
            Version(b) == 4 && HeaderWords(b) >= 5 && off + HeaderWords(b) * 4 <= |data|)
      && (Locate(data, dlt).Some? && Locate(data, dlt).value.Ipv6Header? <==>
            Version(b) == 6 && off + IP6_HEADER_LEN <= |data|)
      && (Version(b) != 4 && Version(b) != 6 ==> Locate(data, dlt).None?)
  {
  }

  /** A frame of an unknown link type, or an Ethernet frame shorter than its header, is refused. */
  lemma UnknownOrShortRefused(data: seq<UInt8>, dlt: int)
    requires (dlt != DLT_RAW_IP && dlt != DLT_ETHERNET) || (dlt == DLT_ETHERNET && |data| < ETHER_HEADER_LEN)
    ensures VersionReadable(data, dlt) && Locate(data, dlt).None?
  {
  }

  /** A tag inside a tag is not looked through, whatever follows it. */
  lemma NestedVlanNotFollowed(data: seq<UInt8>)
    requires ETHER_VLAN_HEADER_LEN <= |data|
    requires UnalignedNetShort(data, ETHER_TYPE_OFFSET) == ETHERTYPE_8021Q
    requires UnalignedNetShort(data, VLAN_ENCAP_OFFSET) == ETHERTYPE_8021Q
    ensures IpHeaderOffset(data, DLT_ETHERNET).None?
  {
  }

  /**
   * An Ethernet frame built from two addresses, the IPv4 ethertype and an
   * option-less IPv4 header is located behind the 14-byte header, and its
   * destination annotation is the header's destination address.
   */
  lemma EthernetFrameLocated(macs: seq<UInt8>, ip: seq<UInt8>)
    requires |macs| == 12 && |ip| >= 20 && ip[0] == 0x45
    ensures var frame := macs + NetShortBytes(ETHERTYPE_IP) + ip;
      && VersionReadable(frame, DLT_ETHERNET)
      && Locate(frame, DLT_ETHERNET) == Some(Ipv4Header(ETHER_HEADER_LEN, 20))
      && ReadAddress(frame, ETHER_HEADER_LEN + IP_DST_OFFSET) == ReadAddress(ip, IP_DST_OFFSET)
  {
    var frame := macs + NetShortBytes(ETHERTYPE_IP) + ip;
    assert frame[12] == 0x08 && frame[13] == 0x00;
    assert frame[ETHER_HEADER_LEN] == 0x45;
    assert frame[30..34] == ip[16..20];
  }

  /**
   * The packet fields the locator sets: its network-header position and its
   * destination-address annotation. The bytes themselves are not changed.
   */
  class PacketView {
    const data: seq<UInt8>
    var networkHeader: Option<NetworkHeader>
    var dstIpAnno: IPAddress

    constructor (data: seq<UInt8>, dstIpAnno: IPAddress)
      ensures this.data == data && this.dstIpAnno == dstIpAnno && networkHeader.None?
    {
      this.data := data;
      this.dstIpAnno := dstIpAnno;
      networkHeader := None;
    }

    /**
     * Find the IP header for link type dlt. On success the header is set
     * and, for IPv4, the destination annotation becomes the header's
     * destination address; on failure nothing changes.
     */
    method SetIpHeaders(dlt: int) returns (ok: bool)
      requires VersionReadable(data, dlt)
      modifies this
      ensures ok <==> Locate(data, dlt).Some?
      ensures ok ==> networkHeader == Locate(data, dlt)
      ensures !ok ==> networkHeader == old(networkHeader)
      ensures ok && networkHeader.value.Ipv4Header? ==>
        networkHeader.value.offset + IP_DST_OFFSET + 4 <= |data| &&
        dstIpAnno == ReadAddress(data, networkHeader.value.offset + IP_DST_OFFSET)
      ensures !(ok && networkHeader.value.Ipv4Header?) ==> dstIpAnno == old(dstIpAnno)
    {
      var iph: Option<nat> := None;
      if dlt == DLT_RAW_IP {
        iph := Some(0);
      } else if dlt == DLT_ETHERNET {
        if ETHER_HEADER_LEN <= |data| {
          if IsIpEthertype(data, ETHER_TYPE_OFFSET) {
            iph := Some(ETHER_HEADER_LEN);
          } else if UnalignedNetShort(data, ETHER_TYPE_OFFSET) == ETHERTYPE_8021Q && ETHER_VLAN_HEADER_LEN <= |data| {
            if IsIpEthertype(data, VLAN_ENCAP_OFFSET) {
              iph := Some(ETHER_VLAN_HEADER_LEN);
            }
          }
        }
      }
      assert iph == IpHeaderOffset(data, dlt);

      if iph.None? {
        return false;
      }
      var off := iph.value;
      var b := data[off];
      if Version(b) == 4 {
        var hl := HeaderWords(b);
        if hl >= 5 && off + hl * 4 <= |data| {
          networkHeader := Some(Ipv4Header(off, hl * 4));
          dstIpAnno := ReadAddress(data, off + IP_DST_OFFSET);
          return true;
        }
      } else if Version(b) == 6 {
        if off + IP6_HEADER_LEN <= |data| {
          networkHeader := Some(Ipv6Header(off));
          return true;
        }
      }
      return false;
    }
  }
}
