/**
 * What each operation of the flow forwarding table (FFT) does to the
 * key-to-value mapping, as pure functions on maps, and the properties of
 * those effects: the insert gate, the verify/refresh rule, the expiry rule
 * and the garbage collectors. The class in module FlowTable is proved to
 * have exactly these effects.
 */
module FlowTableSpec {
  import opened FlowKeys

  type Table = map<FlowKey, FlowValue>

  /** The default timeout: 0xFFFFFFFF milliseconds. */
  const DEFAULT_TIMEOUT: UInt32 := 0xFFFF_FFFF

  /**
   * An entry stamped ts is expired relative to the reference time ref when
   * ref lies before ts (the clock went backwards) or more than timeout
   * milliseconds after it.
   */
  predicate IsExpired(ref: Timestamp, ts: Timestamp, timeout: UInt32) {
    ref - ts < 0 || ref - ts > timeout
  }

  /**
   * An entry is fresh at every reference time from its own timestamp up to
   * and including timeout ms later, and expired at every earlier time and
   * at every later one.
   */
  lemma ExpiryBoundary(ts: Timestamp, timeout: UInt32)
    ensures forall ref | ts <= ref <= ts + timeout :: !IsExpired(ref, ts, timeout)
    ensures forall ref | ref < ts || ref > ts + timeout :: IsExpired(ref, ts, timeout)
    ensures !IsExpired(ts, ts, timeout)
    ensures !IsExpired(ts + timeout, ts, timeout)
    ensures IsExpired(ts + timeout + 1, ts, timeout)
    ensures IsExpired(ts - 1, ts, timeout)
  {
  }

  /**
   * The gate of the field-based insert: true when the insert is declined
   * because the stored value is stamped, still fresh at the new timestamp,
   * and (with loop avoidance) carries the same TTL.
   */
  predicate Declines(stored: FlowValue, v: FlowValue, overwrite: bool, loopAvoidance: bool, timeout: UInt32) {
    && !overwrite
    && stored.ts != 0
    && !IsExpired(v.ts, stored.ts, timeout)
    && (!loopAvoidance || stored.ttl == v.ttl)
  }

  /** The table without the entries doomed picks out. */
  function Without(m: Table, doomed: (FlowKey, FlowValue) -> bool): (r: Table)
    ensures forall k :: k in r <==> k in m && !doomed(k, m[k])
    ensures forall k | k in r :: r[k] == m[k]
  {
    map k | k in m && !doomed(k, m[k]) :: m[k]
  }

  /** The table after every entry with egress port p is removed. */
  function RemovePort(m: Table, p: UInt8): Table {
    map k | k in m && m[k].port != p :: m[k]
  }

  /** The table after the full sweep at reference time ref. */
  function Collect(m: Table, ref: Timestamp, timeout: UInt32): Table {
    map k | k in m && !IsExpired(ref, m[k].ts, timeout) :: m[k]
  }

  /** Two keys share a bucket of an n-bucket table. */
  predicate SameBucket(k1: FlowKey, k2: FlowKey, n: nat)
    requires n > 0
  {
    BucketIndex(k1, n) == BucketIndex(k2, n)
  }

  /**
   * The table after the bucket sweep seeded at k with reference time ts:
   * nothing when k is absent, otherwise every expired entry of k's bucket
   * goes.
   */
  function SweepBucket(m: Table, k: FlowKey, ts: Timestamp, timeout: UInt32, n: nat): Table
    requires n > 0
  {
    if k !in m then m
    else map k' | k' in m && !(SameBucket(k', k, n) && IsExpired(ts, m[k'].ts, timeout)) :: m[k']
  }

  /** The optional bucket sweep that follows a write to k. */
  function AfterWrite(m: Table, k: FlowKey, ts: Timestamp, gc: bool, timeout: UInt32, n: nat): Table
    requires n > 0
  {
    if gc then SweepBucket(m, k, ts, timeout, n) else m
  }

  /**
   * The field-based insert: its return code and the table afterwards. An
   * absent key is looked up as the default value, whose timestamp is 0.
   */
  function AddFlowResult(m: Table, k: FlowKey, v: FlowValue, overwrite: bool,
                         loopAvoidance: bool, gcOnAdd: bool, timeout: UInt32, n: nat): (int, Table)
    requires n > 0
  {
    var stored := if k in m then m[k] else DefaultValue;
    if Declines(stored, v, overwrite, loopAvoidance, timeout) then (-1, m)
    else (0, AfterWrite(m[k := v], k, v.ts, gcOnAdd, timeout, n))
  }

  /** The value the packet-based insert stores: the TTL is 0 when no network header is set. */
  function PacketValue(p: Packet, port: UInt8): FlowValue {
    FlowValue(p.ts, p.dstAnno, port, if p.hasNetworkHeader then p.ip.ttl else 0)
  }

  /** The packet-based insert, which always overwrites. */
  function AddPacketResult(m: Table, p: Packet, port: UInt8, gcOnAdd: bool, timeout: UInt32, n: nat): Table
    requires n > 0
  {
    AfterWrite(m[KeyOf(p) := PacketValue(p, port)], KeyOf(p), p.ts, gcOnAdd, timeout, n)
  }

  /** A stored value verifies a packet when it is fresh and, with loop avoidance, the TTLs agree. */
  predicate CheckHit(stored: FlowValue, p: Packet, loopAvoidance: bool, timeout: UInt32) {
    && !IsExpired(p.ts, stored.ts, timeout)
    && !(loopAvoidance && p.hasNetworkHeader && stored.ttl != p.ip.ttl)
  }

  /** The verify operation: 1 on a hit, 0 on a miss, and the table afterwards. */
  function CheckFlowResult(m: Table, p: Packet, loopAvoidance: bool, gcOnCheck: bool,
                           timeout: UInt32, n: nat): (int, Table)
    requires n > 0
  {
    var k := KeyOf(p);
    if k !in m then (0, m)
    else
      var hit := CheckHit(m[k], p, loopAvoidance, timeout);
      var refreshed := if hit then m[k := m[k].(ts := p.ts)] else m;
      (if hit then 1 else 0, AfterWrite(refreshed, k, p.ts, gcOnCheck, timeout, n))
  }

  /** A run of packet-based inserts, in order. */
  function InsertAll(m: Table, batch: seq<Packet>, port: UInt8, gcOnAdd: bool, timeout: UInt32, n: nat): Table
    requires n > 0
    decreases |batch|
  {
    if batch == [] then m
    else
      var last := |batch| - 1;
      AddPacketResult(InsertAll(m, batch[..last], port, gcOnAdd, timeout, n), batch[last], port, gcOnAdd, timeout, n)
  }

  // ---------------------------------------------------------------------
  // Properties of the insert gate
  // ---------------------------------------------------------------------

  /**
   * The field-based insert returns -1 exactly when the key is present and
   * its stored value declines; then the table is unchanged. Otherwise it
   * returns 0.
   */
  lemma AddFlowDeclinesOnlyPresentFreshKey(m: Table, k: FlowKey, v: FlowValue, overwrite: bool,
                                           la: bool, gc: bool, timeout: UInt32, n: nat)
    requires n > 0
    ensures var (r, m') := AddFlowResult(m, k, v, overwrite, la, gc, timeout, n);
      && (r == -1 <==> k in m && Declines(m[k], v, overwrite, la, timeout))
      && (r == -1 ==> m' == m)
      && (r != -1 ==> r == 0)
  {
  }

  /**
   * After an accepted field-based insert the key maps to exactly the new
   * value; every other entry is unchanged or, when the insert garbage
   * collects, removed because it is expired and shares the key's bucket.
   */
  lemma AddFlowStores(m: Table, k: FlowKey, v: FlowValue, overwrite: bool,
                      la: bool, gc: bool, timeout: UInt32, n: nat)
    requires n > 0
    requires AddFlowResult(m, k, v, overwrite, la, gc, timeout, n).0 == 0
    ensures var m' := AddFlowResult(m, k, v, overwrite, la, gc, timeout, n).1;
      && k in m' && m'[k] == v
      && (forall k' | k' in m' && k' != k :: k' in m && m'[k'] == m[k'])
      && (forall k' | k' in m && k' != k && k' !in m' ::
            gc && SameBucket(k', k, n) && IsExpired(v.ts, m[k'].ts, timeout))
      && (!gc ==> m' == m[k := v])
  {
    assert !IsExpired(v.ts, v.ts, timeout);
  }

  /**
   * The freshness window: a non-overwriting insert with the same TTL is
   * declined up to and including timeout milliseconds after the stored
   * timestamp, and accepted once the entry is older than that.
   */
  lemma FreshnessGate(stored: FlowValue, v: FlowValue, la: bool, timeout: UInt32)
    requires stored.ts != 0 && stored.ttl == v.ttl
    ensures stored.ts <= v.ts <= stored.ts + timeout ==> Declines(stored, v, false, la, timeout)
    ensures v.ts > stored.ts + timeout ==> !Declines(stored, v, false, la, timeout)
    ensures !Declines(stored, v, true, la, timeout)
  {
  }

  /**
   * With loop avoidance on, a different TTL is re-learnt even inside the
   * freshness window; with it off, it is declined like any other.
   */
  lemma LoopAvoidanceGate(stored: FlowValue, v: FlowValue, timeout: UInt32)
    requires stored.ts != 0 && !IsExpired(v.ts, stored.ts, timeout)
    requires stored.ttl != v.ttl
    ensures !Declines(stored, v, false, true, timeout)
    ensures Declines(stored, v, false, false, timeout)
  {
  }

  /** An entry stamped 0 never declines: the default value of an absent key is always overwritten. */
  lemma UnstampedNeverDeclines(stored: FlowValue, v: FlowValue, overwrite: bool, la: bool, timeout: UInt32)
    requires stored.ts == 0
    ensures !Declines(stored, v, overwrite, la, timeout)
  {
  }

  /**
   * The packet-based insert never declines: afterwards the packet's key
   * maps to the packet's timestamp, destination annotation, the given port
   * and its TTL (0 without a network header).
   */
  lemma AddPacketStores(m: Table, p: Packet, port: UInt8, gc: bool, timeout: UInt32, n: nat)
    requires n > 0
    ensures var m' := AddPacketResult(m, p, port, gc, timeout, n);
      && KeyOf(p) in m'
      && m'[KeyOf(p)] == FlowValue(p.ts, p.dstAnno, port, if p.hasNetworkHeader then p.ip.ttl else 0)
      && (forall k | k in m' && k != KeyOf(p) :: k in m && m'[k] == m[k])
      && (forall k | k in m && k != KeyOf(p) && k !in m' :: gc && SameBucket(k, KeyOf(p), n) && IsExpired(p.ts, m[k].ts, timeout))
      && (!gc ==> m' == m[KeyOf(p) := PacketValue(p, port)])
  {
    assert !IsExpired(p.ts, p.ts, timeout);
  }

  // ---------------------------------------------------------------------
  // Properties of verify/refresh
  // ---------------------------------------------------------------------

  /** Verifying an absent key misses and changes nothing (no sweep runs). */
  lemma CheckAbsentMisses(m: Table, p: Packet, la: bool, gc: bool, timeout: UInt32, n: nat)
    requires n > 0 && KeyOf(p) !in m
    ensures CheckFlowResult(m, p, la, gc, timeout, n) == (0, m)
  {
  }

  /**
   * Verifying a present key hits exactly when the stored value verifies the
   * packet; only a hit refreshes the stored timestamp, to the packet's, and
   * nothing else of the entry changes.
   */
  lemma CheckPresent(m: Table, p: Packet, la: bool, gc: bool, timeout: UInt32, n: nat)
    requires n > 0 && KeyOf(p) in m
    ensures var (r, m') := CheckFlowResult(m, p, la, gc, timeout, n);
      && (r == 1 <==> CheckHit(m[KeyOf(p)], p, la, timeout))
      && (r != 1 ==> r == 0)
      && (r == 1 ==> KeyOf(p) in m' && m'[KeyOf(p)] == m[KeyOf(p)].(ts := p.ts))
      && (r == 0 && !gc ==> m' == m)
      && (r == 0 ==> forall k | k in m' :: k in m && m'[k] == m[k])
      && (forall k | k in m' && k != KeyOf(p) :: k in m && m'[k] == m[k])
      && (forall k | k in m && k !in m' :: gc && SameBucket(k, KeyOf(p), n) && IsExpired(p.ts, m[k].ts, timeout))
  {
    assert !IsExpired(p.ts, p.ts, timeout);
  }

  /**
   * A stored timestamp more than timeout behind the packet's, or ahead of
   * it, is a miss.
   */
  lemma ExpirationSymmetry(m: Table, p: Packet, la: bool, gc: bool, timeout: UInt32, n: nat)
    requires n > 0 && KeyOf(p) in m
    requires m[KeyOf(p)].ts > p.ts || p.ts - m[KeyOf(p)].ts > timeout
    ensures CheckFlowResult(m, p, la, gc, timeout, n).0 == 0
  {
  }

  /** A hit never moves a stored timestamp backwards. */
  lemma RefreshMonotone(m: Table, p: Packet, la: bool, gc: bool, timeout: UInt32, n: nat)
    requires n > 0 && KeyOf(p) in m
    requires CheckFlowResult(m, p, la, gc, timeout, n).0 == 1
    ensures var m' := CheckFlowResult(m, p, la, gc, timeout, n).1;
      KeyOf(p) in m' && m'[KeyOf(p)].ts >= m[KeyOf(p)].ts
  {
    CheckPresent(m, p, la, gc, timeout, n);
  }

  // ---------------------------------------------------------------------
  // Properties of removal and of the garbage collectors
  // ---------------------------------------------------------------------

  /** After removing port p no entry has port p, and every other entry is untouched. */
  lemma RemovePortExact(m: Table, p: UInt8)
    ensures forall k | k in RemovePort(m, p) :: RemovePort(m, p)[k].port != p
    ensures forall k | k in m && m[k].port != p :: k in RemovePort(m, p) && RemovePort(m, p)[k] == m[k]
    ensures forall k | k in RemovePort(m, p) :: k in m
  {
  }

  /** The full sweep removes exactly the expired entries and keeps the others unchanged. */
  lemma CollectExact(m: Table, ref: Timestamp, timeout: UInt32)
    ensures forall k :: k in Collect(m, ref, timeout) <==> k in m && !IsExpired(ref, m[k].ts, timeout)
    ensures forall k | k in Collect(m, ref, timeout) :: Collect(m, ref, timeout)[k] == m[k]
  {
  }

  /**
   * The bucket sweep seeded at k removes nothing when k is absent, never
   * removes an entry of another bucket, removes every expired entry of k's
   * bucket (k included), and changes no value.
   */
  lemma SweepBucketLocal(m: Table, k: FlowKey, ts: Timestamp, timeout: UInt32, n: nat)
    requires n > 0
    ensures k !in m ==> SweepBucket(m, k, ts, timeout, n) == m
    ensures forall k' | k' in m && !SameBucket(k', k, n) :: k' in SweepBucket(m, k, ts, timeout, n)
    ensures k in m ==> forall k' | k' in m && SameBucket(k', k, n) && IsExpired(ts, m[k'].ts, timeout) ::
              k' !in SweepBucket(m, k, ts, timeout, n)
    ensures forall k' | k' in SweepBucket(m, k, ts, timeout, n) :: k' in m && SweepBucket(m, k, ts, timeout, n)[k'] == m[k']
  {
  }

  // ---------------------------------------------------------------------
  // Runs of inserts
  // ---------------------------------------------------------------------

  /**
   * Without garbage collection, a run of packet-based inserts leaves every
   * key of the run mapped to the value of the last packet carrying it.
   */
  lemma {:induction false} InsertAllLastWins(m: Table, batch: seq<Packet>, port: UInt8, timeout: UInt32, n: nat)
    requires n > 0
    ensures var m' := InsertAll(m, batch, port, false, timeout, n);
      forall i | 0 <= i < |batch| && (forall j | i < j < |batch| :: KeyOf(batch[j]) != KeyOf(batch[i])) ::
        KeyOf(batch[i]) in m' && m'[KeyOf(batch[i])] == PacketValue(batch[i], port)
    decreases |batch|
  {
    if batch != [] {
      var last := |batch| - 1;
      var front := batch[..last];
      InsertAllLastWins(m, front, port, timeout, n);
      var m0 := InsertAll(m, front, port, false, timeout, n);
      var m' := InsertAll(m, batch, port, false, timeout, n);
      assert m' == m0[KeyOf(batch[last]) := PacketValue(batch[last], port)];
      forall i | 0 <= i < |batch| && (forall j | i < j < |batch| :: KeyOf(batch[j]) != KeyOf(batch[i]))
        ensures KeyOf(batch[i]) in m' && m'[KeyOf(batch[i])] == PacketValue(batch[i], port)
      {
        if i < last {
          assert front[i] == batch[i];
          forall j | i < j < |front| ensures KeyOf(front[j]) != KeyOf(front[i]) {
            assert front[j] == batch[j];
          }
          assert KeyOf(batch[last]) != KeyOf(batch[i]);
        }
      }
    }
  }

  /**
   * Without garbage collection, a run of packet-based inserts leaves every
   * entry whose key no packet of the run carries untouched, and adds no key
   * but the run's.
   */
  lemma {:induction false} InsertAllOnlyRunKeys(m: Table, batch: seq<Packet>, port: UInt8, timeout: UInt32, n: nat)
    requires n > 0
    ensures var m' := InsertAll(m, batch, port, false, timeout, n);
      && (forall k | k in m && (forall j | 0 <= j < |batch| :: KeyOf(batch[j]) != k) :: k in m' && m'[k] == m[k])
      && (forall k | k in m' :: k in m || exists j | 0 <= j < |batch| :: KeyOf(batch[j]) == k)
    decreases |batch|
  {
    if batch != [] {
      var last := |batch| - 1;
      var front := batch[..last];
      InsertAllOnlyRunKeys(m, front, port, timeout, n);
      var m0 := InsertAll(m, front, port, false, timeout, n);
      var m' := InsertAll(m, batch, port, false, timeout, n);
      assert m' == m0[KeyOf(batch[last]) := PacketValue(batch[last], port)];
      forall k | k in m' ensures k in m || exists j | 0 <= j < |batch| :: KeyOf(batch[j]) == k {
        if k != KeyOf(batch[last]) {
          assert k in m0;
          if k !in m {
            var j :| 0 <= j < |front| && KeyOf(front[j]) == k;
            assert batch[j] == front[j];
          }
        }
      }
      forall k | k in m && (forall j | 0 <= j < |batch| :: KeyOf(batch[j]) != k) ensures k in m' && m'[k] == m[k] {
        forall j | 0 <= j < |front| ensures KeyOf(front[j]) != k {
          assert front[j] == batch[j];
        }
      }
    }
  }

  /** Under garbage collection a run of inserts never adds a key other than the run's, nor changes a value it did not write. */
  lemma {:induction false} InsertAllWithinWrites(m: Table, batch: seq<Packet>, port: UInt8, gc: bool, timeout: UInt32, n: nat)
    requires n > 0
    ensures var m' := InsertAll(m, batch, port, gc, timeout, n);
      forall k | k in m' && (forall j | 0 <= j < |batch| :: KeyOf(batch[j]) != k) :: k in m && m'[k] == m[k]
    decreases |batch|
  {
    if batch != [] {
      var last := |batch| - 1;
      var front := batch[..last];
      InsertAllWithinWrites(m, front, port, gc, timeout, n);
      var m0 := InsertAll(m, front, port, gc, timeout, n);
      AddPacketStores(m0, batch[last], port, gc, timeout, n);
      forall k | k in InsertAll(m, batch, port, gc, timeout, n) && (forall j | 0 <= j < |batch| :: KeyOf(batch[j]) != k)
        ensures k in m && InsertAll(m, batch, port, gc, timeout, n)[k] == m[k]
      {
        forall j | 0 <= j < |front| ensures KeyOf(front[j]) != k {
          assert front[j] == batch[j];
        }
      }
    }
  }

  /**
   * The worked example: an entry learnt at t=0 with TTL 64 and a 500 ms
   * timeout verifies at t=100 (and is refreshed to 100), then misses at
   * t=700.
   */
  lemma WorkedExample(m: Table, p0: Packet, n: nat)
    requires n > 0
    requires p0.ts == 0 && p0.hasNetworkHeader && p0.ip.ttl == 64
    ensures var m1 := AddPacketResult(m, p0, 1, false, 500, n);
      var p1 := p0.(ts := 100);
      var (r1, m2) := CheckFlowResult(m1, p1, true, false, 500, n);
      var p2 := p0.(ts := 700);
      && r1 == 1 && m2[KeyOf(p0)].ts == 100
      && CheckFlowResult(m2, p2, true, false, 500, n).0 == 0
  {
  }
}
