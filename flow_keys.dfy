/**
 * Flow keys, flow values and the hash that places a key in a bucket
 * (the FlowKey and FlowValue structs of the FFT element).
 *
 * An IPv4 address is the 32-bit word the element stores; source and
 * destination ports in a key are the raw 16-bit words read from the
 * transport header. Timestamps are integer milliseconds.
 */
module FlowKeys {

  /** An unsigned 8-bit value: an egress port, a TTL or an IP protocol number. */
  type UInt8 = x: int | 0 <= x < 0x100

  /** An unsigned 32-bit value, such as the table's timeout in milliseconds. */
  type UInt32 = x: int | 0 <= x < 0x1_0000_0000

  type IPAddress = bv32

  /** A point in time, in milliseconds. The value 0 is the timestamp of a default-constructed entry. */
  type Timestamp = int

  const IP_PROTO_TCP: UInt8 := 6
  const IP_PROTO_UDP: UInt8 := 17

  /** Mask of the fragment-offset bits of the IPv4 ip_off field (host byte order). */
  const IP_OFFMASK: bv16 := 0x1FFF

  datatype Option<T> = None | Some(value: T)

  /** The 4-tuple that identifies a flow. Its default value is all zeros. */
  datatype FlowKey = FlowKey(sa: IPAddress, da: IPAddress, sp: bv16, dp: bv16)

  const DefaultKey: FlowKey := FlowKey(0, 0, 0, 0)

  /** What the table stores for a flow (the detailed-statistics fields are compiled out). */
  datatype FlowValue = FlowValue(ts: Timestamp, gateway: IPAddress, port: UInt8, ttl: UInt8)

  /** The value a lookup-with-insert creates for a key that was absent. */
  const DefaultValue: FlowValue := FlowValue(0, 0, 0, 0)

  /** The fields of a packet's IPv4 header that the table reads. */
  datatype IpHeader = IpHeader(src: IPAddress, dst: IPAddress, proto: UInt8, ttl: UInt8, off: bv16)

  /**
   * The view of a packet that the table works on: its timestamp and
   * destination annotations, whether a network header is set, that header,
   * and the first two 16-bit words of its transport header.
   */
  datatype Packet = Packet(
    ts: Timestamp,
    dstAnno: IPAddress,
    hasNetworkHeader: bool,
    ip: IpHeader,
    transportWord0: bv16,
    transportWord1: bv16)

  predicate FirstFragment(h: IpHeader) {
    h.off & IP_OFFMASK == 0
  }

  /** Ports are part of the key only for the first fragment of a TCP or UDP datagram. */
  predicate CarriesPorts(h: IpHeader) {
    FirstFragment(h) && (h.proto == IP_PROTO_TCP || h.proto == IP_PROTO_UDP)
  }

  /** Component-wise equality of two keys. */
  function Equals(a: FlowKey, b: FlowKey): (r: bool)
    ensures r <==> a == b
  {
    a.sa == b.sa && a.da == b.da && a.sp == b.sp && a.dp == b.dp
  }

  /** The key of the flow a packet belongs to. */
  function KeyOf(p: Packet): (k: FlowKey)
    ensures k.sa == p.ip.src && k.da == p.ip.dst
    ensures CarriesPorts(p.ip) ==> k.sp == p.transportWord0 && k.dp == p.transportWord1
    ensures k.sp != 0 || k.dp != 0 ==> CarriesPorts(p.ip)
  {
    if CarriesPorts(p.ip) then
      FlowKey(p.ip.src, p.ip.dst, p.transportWord0, p.transportWord1)
    else
      FlowKey(p.ip.src, p.ip.dst, 0, 0)
  }

  /** All port-less traffic between one pair of addresses shares a single key. */
  lemma PortlessTrafficSharesKey(p: Packet, q: Packet)
    requires !CarriesPorts(p.ip) && !CarriesPorts(q.ip)
    requires p.ip.src == q.ip.src && p.ip.dst == q.ip.dst
    ensures KeyOf(p) == KeyOf(q)
  {
  }

  // ---------------------------------------------------------------------
  // The hash: a seed built from the four fields, then Bob Jenkins'
  // six-round 32-bit integer mix. All arithmetic wraps modulo 2^32.
  // ---------------------------------------------------------------------

  function Seed(k: FlowKey): bv32 {
    var a := (k.sa * 59) ^ k.da;
    a ^ (k.sp as bv32) ^ ((k.dp as bv32) << 16)
  }

  function Round1(a: bv32): bv32 { (a + 0x7ed55d16) + (a << 12) }
  function Round2(a: bv32): bv32 { (a ^ 0xc761c23c) ^ (a >> 19) }
  function Round3(a: bv32): bv32 { (a + 0x165667b1) + (a << 5) }
  function Round4(a: bv32): bv32 { (a + 0xd3a2646c) ^ (a << 9) }
  function Round5(a: bv32): bv32 { (a + 0xfd7046c5) + (a << 3) }
  function Round6(a: bv32): bv32 { (a ^ 0xb55a4f09) ^ (a >> 16) }

  function Mix(a: bv32): bv32 {
    Round6(Round5(Round4(Round3(Round2(Round1(a))))))
  }

  /** The key's hash code. */
  function Hash(k: FlowKey): bv32 {
    Mix(Seed(k))
  }

  /** The bucket a key belongs to in a table of n buckets. */
  function BucketIndex(k: FlowKey, n: nat): (b: nat)
    requires n > 0
    ensures b < n
  {
    (Hash(k) as int) % n
  }

  /** Reference values of the hash, each round wrapping modulo 2^32. */
  lemma HashVectors()
    ensures Hash(DefaultKey) == 0x6b4ed927
    ensures Hash(FlowKey(0x0a000001, 0x0a000002, 80, 1234)) == 0x08561ef5
  {
  }
}
