# FFT flow forwarding table — a Dafny model

This project models the flow forwarding table of the famtar Click package:
the `FFT` element, which maps a flow (source and destination address,
source and destination port) to the egress port, gateway, TTL and
last-seen timestamp learnt for it; the `AddFFT` element, which learns the
flows of the packets it passes unless its port is marked down; and the
header locator `set_ip_headers`, which finds the IPv4 or IPv6 header of a
raw or Ethernet frame.

Modules:

- `FlowKeys` (flow_keys.dfy): flow keys and values, the key of a packet,
  and the 32-bit hash that places a key in a bucket.
- `FlowTableSpec` (flow_table_spec.dfy): what every table operation does to
  the key-to-value mapping, as functions on maps, with the properties of
  the insert gate, the verify/refresh rule, expiry and the collectors.
- `FlowTable` (flow_table.dfy): the table itself, a class over an array of
  bucket chains. Each chain holds its entries in the order the table's
  iterator visits them. A ghost field `Contents` is the mapping the chains
  hold. Every method is proved to change `Contents` exactly as the matching
  function of `FlowTableSpec` says. The sweeps (`remove_flows`, the global
  and the bucket garbage collection) walk the chains entry by entry and
  erase as they go, as the source's iterator loops do.
- `IpHeaders` (ip_headers.dfy): big-endian field reads, the ethertype test,
  and the header locator, as a function and as a method on a packet view.
- `AddFft` (add_fft.dfy): the `AddFFT` element's down flag, its packet and
  batch actions, and its handlers.

Timestamps are integer milliseconds. Addresses are 32-bit words, and the
ports of a key are the raw 16-bit words of the transport header.

## Model

| member | source | states |
|---|---|---|
| FlowKeys.Equals | click_package/fft.hh:85-90 | key equality holds exactly when all four fields are equal |
| FlowKeys.KeyOf | click_package/fft.hh:51-68 | a packet's key copies the IP source and destination; its ports are the first two transport words for a first fragment of TCP or UDP, and are both 0 otherwise |
| FlowKeys.PortlessTrafficSharesKey | click_package/fft.hh:58-67 | all traffic between two addresses that carries no ports (other protocols, later fragments) shares one key |
| FlowKeys.BucketIndex | click_package/fft.cc:210-211 | a key's bucket is its hash modulo the bucket count, always a valid bucket |
| FlowKeys.HashVectors | click_package/fft.hh:70-83 | the hash of the all-zero key is 0x6b4ed927 and of the key with field words (0x0a000001, 0x0a000002, 80, 1234) is 0x08561ef5, every round wrapping modulo 2^32 |
| FlowTableSpec.ExpiryBoundary | click_package/fft.cc:329-338 | an entry is fresh at every reference time from its own timestamp up to and including timeout ms later, and expired at every earlier and every later reference time |
| FlowTableSpec.Without | click_package/fft.cc:176-184 | a sweep keeps exactly the entries it does not erase, with their values unchanged |
| FlowTableSpec.AddFlowDeclinesOnlyPresentFreshKey | click_package/fft.cc:48-54 | the field-based insert returns -1 exactly when the key is present and its stored value is stamped, still fresh and (with loop avoidance) has the same TTL; then nothing changes; otherwise it returns 0 |
| FlowTableSpec.AddFlowStores | click_package/fft.cc:61-76 | an accepted insert maps the key to the new value; any other entry is unchanged, or was removed because the insert garbage collects and it is an expired entry of the same bucket |
| FlowTableSpec.FreshnessGate | click_package/fft.cc:51-54 | with equal TTLs a non-overwriting insert is declined for up to timeout ms after the stored timestamp and accepted afterwards; an overwriting insert is never declined |
| FlowTableSpec.LoopAvoidanceGate | click_package/fft.cc:53 | within the freshness window a changed TTL is accepted with loop avoidance on and declined with it off |
| FlowTableSpec.UnstampedNeverDeclines | click_package/fft.cc:49-52 | a stored value stamped 0, as a freshly created default is, never declines an insert |
| FlowTableSpec.AddPacketStores | click_package/fft.cc:79-112 | the packet-based insert maps the packet's key to its timestamp, destination annotation, the given port and its TTL (0 without a network header), changes no other value, and removes an entry only by the sweep on add, being expired and in the key's bucket |
| FlowTableSpec.CheckAbsentMisses | click_package/fft.cc:120-125 | verifying an absent key returns 0 and changes nothing |
| FlowTableSpec.CheckPresent | click_package/fft.cc:125-150 | verifying a present key returns 1 exactly on a hit (fresh, and TTLs agree when loop avoidance applies), otherwise 0; only a hit refreshes the stored timestamp, a miss changes no value, no other value changes, and an entry is removed only by the sweep on check, being expired and in the key's bucket |
| FlowTableSpec.ExpirationSymmetry | click_package/fft.cc:131-132 | a stored timestamp ahead of the packet's, or more than timeout behind it, is a miss |
| FlowTableSpec.RefreshMonotone | click_package/fft.cc:138-140 | a hit never moves the stored timestamp backwards |
| FlowTableSpec.RemovePortExact | click_package/fft.cc:173-185 | after removing port p no entry has port p and every other entry is unchanged |
| FlowTableSpec.CollectExact | click_package/fft.cc:187-201 | the full sweep keeps exactly the entries not expired at the reference time, unchanged |
| FlowTableSpec.SweepBucketLocal | click_package/fft.cc:203-219 | the bucket sweep does nothing when the seed key is absent, never removes an entry of another bucket, removes every expired entry of the seed's bucket, and changes no value |
| FlowTableSpec.InsertAllLastWins | click_package/addfft.cc:54-67 | without garbage collection, after a batch every key of the batch maps to the value of the last packet carrying it |
| FlowTableSpec.InsertAllOnlyRunKeys | click_package/addfft.cc:54-67 | without garbage collection, a batch leaves every key no packet carries unchanged and adds no other key |
| FlowTableSpec.InsertAllWithinWrites | click_package/addfft.cc:54-67 | even with garbage collection, a batch neither adds nor changes an entry whose key no packet of the batch carries |
| FlowTableSpec.WorkedExample | click_package/fft.cc:114-153 | a flow learnt at t=0 with TTL 64 and a 500 ms timeout verifies at t=100, is refreshed to 100, and misses at t=700 |
| FlowTable.LookupAgrees | click_package/fft.cc:121 | a lookup in the key's own chain finds exactly the keys of the mapping, with their values |
| FlowTable.KeysUnique | click_package/fft.hh:112 | no key is stored twice anywhere in the table |
| FlowTable.WriteKeepsTable | click_package/fft.cc:49-64 | writing a key in its chain (in place, or as a new head) keeps the chains consistent with the updated mapping |
| FlowTable.EraseKeepsTable | click_package/fft.cc:181 | erasing an entry from its chain keeps the chains consistent with the mapping minus that key |
| FlowTable.ToFrontKeepsTable | click_package/fft.cc:206 | moving an entry to the head of its chain leaves the mapping unchanged |
| FlowTable.ListingIsContents | click_package/fft.cc:232-241 | the entries the iterator visits are exactly the key-value pairs of the mapping |
| FlowTable.ShownOfHolds | click_package/fft.cc:236 | a dump shows an entry exactly when it is visited and either all entries are requested or it is not expired |
| FlowTable.DumpShowsContents | click_package/fft.cc:221-244 | a full walk of the chains shows exactly the mapping's entries that pass the filter |
| FlowTable.FFT.constructor | click_package/fft.cc:8-12 | a new table is empty, with timeout 0xFFFFFFFF ms, loop avoidance on and both garbage collections off |
| FlowTable.FFT.Write | click_package/fft.cc:49-64 | lookup-with-insert followed by the field writes maps the key to the new value |
| FlowTable.FFT.EraseAt | click_package/fft.cc:181 | erasing through the iterator removes that entry's key and touches no other chain |
| FlowTable.FFT.FindPrefer | click_package/fft.cc:206 | the preferred lookup reports whether the key is present and, when it is, moves it to the head of its chain without changing the mapping |
| FlowTable.FFT.EraseWhere | click_package/fft.cc:176-184 | the iterator walk erasing as it goes leaves exactly the entries not doomed |
| FlowTable.FFT.BucketGarbageCollection | click_package/fft.cc:203-219 | the walk from the seed key, stopping at the first entry of another bucket, has exactly the effect of the bucket sweep |
| FlowTable.FFT.AddFlow | click_package/fft.cc:44-77 | the field-based insert returns and stores what the insert gate and the optional bucket sweep say |
| FlowTable.FFT.AddFlowPacket | click_package/fft.cc:79-112 | the packet-based insert returns 0 and stores the packet's value, then sweeps when garbage collection on add is on |
| FlowTable.FFT.CheckFlow | click_package/fft.cc:114-153 | verification returns and stores what the verify/refresh rule says, sweeping only when the key was present |
| FlowTable.FFT.RouteFlow | click_package/fft.cc:155-171 | routing returns the stored port of a present key and -1 otherwise; a non-zero stored gateway replaces the destination annotation; the table is not changed |
| FlowTable.FFT.RemoveFlows | click_package/fft.cc:173-185 | port removal leaves exactly the entries whose port differs |
| FlowTable.FFT.GlobalGarbageCollection | click_package/fft.cc:187-201 | the full sweep at the given time leaves exactly the entries not expired then |
| FlowTable.FFT.Clear | click_package/fft.cc:284-291 | clearing empties the table |
| FlowTable.FFT.MaxBucketSize | click_package/fft.cc:259-268 | the result bounds every chain's length and is the length of some chain |
| FlowTable.FFT.DumpTable | click_package/fft.cc:221-244 | the active dump lists exactly the entries not expired at the given time, the full dump every entry |
| FlowTable.FFT.WriteHandler | click_package/fft.cc:278-307 | clear empties the table; remove with a parsed number removes its low 8 bits as a port, and otherwise does nothing; manual_gc sweeps; each returns 0, and any other handler returns -1 and changes nothing |
| IpHeaders.UnalignedNetShort | click_package/my_set_ip.hh:5-10 | the two bytes are read big-endian: the high byte first, then the low byte |
| IpHeaders.NetShortRoundTrip | click_package/my_set_ip.hh:5-10 | reading the big-endian encoding of a 16-bit number gives the number back |
| IpHeaders.NetShortBytesRoundTrip | click_package/my_set_ip.hh:5-10 | encoding the number read from two bytes gives those bytes back |
| IpHeaders.IpEthertypeExact | click_package/my_set_ip.hh:14 | the ethertype test accepts exactly 08 00 (IPv4) and 86 DD (IPv6) |
| IpHeaders.IpHeaderOffset | click_package/my_set_ip.hh:23-40 | link type 1 puts the IP header at 0; link type 2 puts it at 14 exactly when the Ethernet header fits and its type is IP or IPv6, and at 18 exactly when the outer type is 802.1Q, the tagged header fits and the inner type is IP or IPv6; any other link type, or a short Ethernet frame, has none |
| IpHeaders.Locate | click_package/my_set_ip.hh:42-63 | an accepted IPv4 header has version 4, at least five words, and fits; an accepted IPv6 header has version 6 and 40 bytes fit |
| IpHeaders.LocateExact | click_package/my_set_ip.hh:45-63 | both directions of the IPv4 and IPv6 acceptance rules, and any other version is refused |
| IpHeaders.UnknownOrShortRefused | click_package/my_set_ip.hh:23-43 | an unknown link type, or an Ethernet frame shorter than 14 bytes, is refused |
| IpHeaders.NestedVlanNotFollowed | click_package/my_set_ip.hh:32-38 | a tag inside a tag is not looked through |
| IpHeaders.EthernetFrameLocated | click_package/my_set_ip.hh:27-52 | an Ethernet frame built around an option-less IPv4 header is located at 14 with length 20, and its destination annotation is the header's destination |
| IpHeaders.PacketView.SetIpHeaders | click_package/my_set_ip.hh:16-64 | the locator succeeds exactly when the header is acceptable, then sets the header, and for IPv4 the destination annotation; on failure nothing changes |
| AddFft.AddFFT.constructor | click_package/addfft.cc:10-13 | a new element over a consistent table holds that table and its port, is itself consistent, and its timer is not yet initialized |
| AddFft.AddFFT.Initialize | click_package/addfft.cc:32-39 | initialization clears the down flag and initializes the timer |
| AddFft.AddFFT.SimpleAction | click_package/addfft.cc:41-52 | the packet passes unchanged; it is learnt with the element's port exactly when the port is not down |
| AddFft.AddFFT.SimpleActionBatch | click_package/addfft.cc:54-68 | the batch passes unchanged; when not down every packet is learnt, in order; when down the table is untouched |
| AddFft.AddFFT.SetDown | click_package/addfft.cc:70-80 | the down flag is set only once the timer is initialized, but the port's flows are always removed |
| AddFft.AddFFT.SetUp | click_package/addfft.cc:82-86 | the down flag is cleared and nothing else changes |
| AddFft.AddFFT.RunTimer | click_package/addfft.cc:88-93 | the timer clears the down flag and nothing else changes |
| AddFft.AddFFT.WriteHandler | click_package/addfft.cc:97-116 | "down" marks the port down and removes its flows, "up" clears the mark, each returning 0; any other handler returns -1 and changes nothing |
| AddFft.BatchLearnsLastPacket | click_package/addfft.cc:54-67 | after a batch with the port up and no garbage collection, each flow holds the port and timestamp of its last packet |

## Left out

- Click's `HashTable` internals are not shown in the source. The model fixes the bucket count (there is no resizing), puts a new key at the head of its chain, and has the preferred lookup move the found entry to the head of its chain, so the bucket sweep visits the whole chain.
- Timestamps are integer milliseconds. The truncation of a sub-millisecond difference by `msecval` is not modelled, nor is overflow of the timestamp type.
- `Timestamp::now()` becomes the parameter `now`. The result of parsing the remove handler's text with `cp_integer` becomes the parameter `parsedPort`.
- The key of a packet is read from its IP header whether or not a network header is set. The packet view always carries header fields for this reason.
- `FlowTable.FFT.RouteFlow`: the packet's destination annotation is changed in place in the source; the model returns the changed packet instead.
- `FlowTable.FFT.DumpTable`: the contract states which entries are listed, not their order or their text. The `print_flow_info` formatting is not modelled.
- The `size` and `bucket_count` read handlers, the `<error>` reply of the read handler, and the data handlers for the four settings are not modelled; the settings are plain fields of the class.
- `configure` and `Args` parsing, handler registration and `initialize`/`cleanup` of the table element (which do nothing) are not modelled.
- The timer's real-time scheduling (`schedule_after_sec(5)`) is not modelled. `RunTimer` is the timer firing.
- Verbose `click_chatter` logging and `packet_info.hh` formatting are not modelled.
- The statistics under `FFT_DETAILED_STATS` are compiled out and are not modelled.
- `AddFft.AddFFT.constructor`: the down flag is left unset, as it is uninitialized until `initialize`.
- `IpHeaders.PacketView.SetIpHeaders`: the source reads the version byte before checking the length at the IP offset. The model therefore requires that byte to exist (`VersionReadable`).
- Header positions are offsets into the frame rather than pointers. Addresses are read from the bytes in big-endian order, whereas Click stores them in network order inside a 32-bit word.
- `monitor/monitor.py`, `checkfft.cc` and `routefft.cc` (thin wrappers of `check_flow` and `route_flow`) are not part of this model.
