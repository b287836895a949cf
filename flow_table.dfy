/**
 * The flow forwarding table element (FFT): a chained hash table from
 * FlowKey to FlowValue, an array of bucket chains. The ghost field
 * Contents is the mapping the chains represent; every operation is proved
 * to change Contents exactly as the matching function of FlowTableSpec
 * says, and the sweeps walk the chains the way the element's iterator
 * does, erasing as they go.
 */
module FlowTable {
  import opened FlowKeys
  import opened FlowTableSpec

  datatype Entry = Entry(key: FlowKey, value: FlowValue)

  /** The position of key k in a chain, or -1 when k is not there. */
  function IndexOf(s: seq<Entry>, k: FlowKey): (i: int)
    ensures -1 <= i < |s|
    ensures i >= 0 ==> s[i].key == k
    ensures i < 0 ==> forall j | 0 <= j < |s| :: s[j].key != k
  {
    if s == [] then -1
    else if s[0].key == k then 0
    else
      var j := IndexOf(s[1..], k);
      if j < 0 then -1 else j + 1
  }

  /** Every entry of chain s hashes to bucket b and agrees with m, and no key occurs twice. */
  ghost predicate ChainOk(s: seq<Entry>, b: nat, n: nat, m: Table)
    requires n > 0
  {
    && (forall i | 0 <= i < |s| :: BucketIndex(s[i].key, n) == b && s[i].key in m && m[s[i].key] == s[i].value)
    && (forall i, j | 0 <= i < j < |s| :: s[i].key != s[j].key)
  }

  /** The chains bs hold exactly the mapping m, each key in the chain of its bucket. */
  ghost predicate TableOk(bs: seq<seq<Entry>>, m: Table) {
    && |bs| > 0
    && (forall b {:trigger ChainOk(bs[b], b, |bs|, m)} | 0 <= b < |bs| :: ChainOk(bs[b], b, |bs|, m))
    && (forall k {:trigger IndexOf(bs[BucketIndex(k, |bs|)], k)} | k in m :: IndexOf(bs[BucketIndex(k, |bs|)], k) >= 0)
  }

  /** A lookup in the key's own chain finds exactly the keys of m, with their values. */
  lemma LookupAgrees(bs: seq<seq<Entry>>, m: Table, k: FlowKey)
    requires TableOk(bs, m)
    ensures var i := IndexOf(bs[BucketIndex(k, |bs|)], k);
      && (k in m <==> i >= 0)
      && (i >= 0 ==> bs[BucketIndex(k, |bs|)][i].value == m[k])
  {
    var s := bs[BucketIndex(k, |bs|)];
    assert ChainOk(s, BucketIndex(k, |bs|), |bs|, m);
  }

  /** No key appears in two places of the table. */
  lemma KeysUnique(bs: seq<seq<Entry>>, m: Table, b1: nat, i1: nat, b2: nat, i2: nat)
    requires TableOk(bs, m)
    requires b1 < |bs| && i1 < |bs[b1]| && b2 < |bs| && i2 < |bs[b2]|
    requires bs[b1][i1].key == bs[b2][i2].key
    ensures b1 == b2 && i1 == i2
  {
    assert ChainOk(bs[b1], b1, |bs|, m);
    assert ChainOk(bs[b2], b2, |bs|, m);
  }

  /** A key found at some position of a chain is found by IndexOf. */
  lemma FoundAt(s: seq<Entry>, k: FlowKey, j: nat)
    requires j < |s| && s[j].key == k
    ensures IndexOf(s, k) >= 0
  {
  }

  /** The chain after k is written with v: in place when present, at the head otherwise. */
  function ChainWrite(s: seq<Entry>, k: FlowKey, v: FlowValue): seq<Entry> {
    var i := IndexOf(s, k);
    if i >= 0 then s[i := Entry(k, v)] else [Entry(k, v)] + s
  }

  lemma ChainWriteOk(s: seq<Entry>, b: nat, n: nat, m: Table, k: FlowKey, v: FlowValue)
    requires n > 0 && ChainOk(s, b, n, m) && BucketIndex(k, n) == b
    ensures ChainOk(ChainWrite(s, k, v), b, n, m[k := v])
  {
    var i := IndexOf(s, k);
    var s' := ChainWrite(s, k, v);
    var m' := m[k := v];
    if i >= 0 {
      forall j | 0 <= j < |s'|
        ensures BucketIndex(s'[j].key, n) == b && s'[j].key in m' && m'[s'[j].key] == s'[j].value
      {
        if j != i {
          assert s'[j] == s[j] && s[j].key != k;
        }
      }
    } else {
      forall j | 0 <= j < |s'|
        ensures BucketIndex(s'[j].key, n) == b && s'[j].key in m' && m'[s'[j].key] == s'[j].value
      {
        if j > 0 {
          assert s'[j] == s[j - 1];
        }
      }
      forall j1, j2 | 0 <= j1 < j2 < |s'| ensures s'[j1].key != s'[j2].key {
        assert s'[j2] == s[j2 - 1];
        if j1 > 0 {
          assert s'[j1] == s[j1 - 1];
        }
      }
    }
  }

  lemma ChainUntouchedOk(s: seq<Entry>, c: nat, n: nat, m: Table, k: FlowKey, v: FlowValue)
    requires n > 0 && ChainOk(s, c, n, m) && BucketIndex(k, n) != c
    ensures ChainOk(s, c, n, m[k := v])
  {
    forall j | 0 <= j < |s| ensures s[j].key != k {
      assert BucketIndex(s[j].key, n) == c;
    }
  }

  lemma ChainWriteFinds(s: seq<Entry>, k: FlowKey, v: FlowValue, k': FlowKey)
    requires k' == k || IndexOf(s, k') >= 0
    ensures IndexOf(ChainWrite(s, k, v), k') >= 0
  {
    var i := IndexOf(s, k);
    var s' := ChainWrite(s, k, v);
    if k' == k {
      FoundAt(s', k, if i >= 0 then i else 0);
    } else {
      var j := IndexOf(s, k');
      FoundAt(s', k', if i >= 0 then j else j + 1);
    }
  }

  lemma WriteKeepsTable(bs: seq<seq<Entry>>, m: Table, k: FlowKey, v: FlowValue)
    requires TableOk(bs, m)
    ensures var b := BucketIndex(k, |bs|);
      TableOk(bs[b := ChainWrite(bs[b], k, v)], m[k := v])
  {
    var n := |bs|;
    var b := BucketIndex(k, n);
    var bs' := bs[b := ChainWrite(bs[b], k, v)];
    var m' := m[k := v];
    forall c | 0 <= c < n ensures ChainOk(bs'[c], c, n, m') {
      if c == b {
        ChainWriteOk(bs[b], b, n, m, k, v);
      } else {
        ChainUntouchedOk(bs[c], c, n, m, k, v);
      }
    }
    forall k' | k' in m' ensures IndexOf(bs'[BucketIndex(k', n)], k') >= 0 {
      if BucketIndex(k', n) == b {
        ChainWriteFinds(bs[b], k, v, k');
      }
    }
  }

  /** The chain without its i-th entry. */
  function ChainErase(s: seq<Entry>, i: nat): seq<Entry>
    requires i < |s|
  {
    s[..i] + s[i + 1..]
  }

  lemma ChainEraseOk(s: seq<Entry>, b: nat, n: nat, m: Table, i: nat)
    requires n > 0 && ChainOk(s, b, n, m) && i < |s|
    ensures ChainOk(ChainErase(s, i), b, n, m - {s[i].key})
  {
    var s' := ChainErase(s, i);
    var m' := m - {s[i].key};
    forall j | 0 <= j < |s'|
      ensures BucketIndex(s'[j].key, n) == b && s'[j].key in m' && m'[s'[j].key] == s'[j].value
    {
      var o := if j < i then j else j + 1;
      assert s'[j] == s[o];
    }
    forall j1, j2 | 0 <= j1 < j2 < |s'| ensures s'[j1].key != s'[j2].key {
      var o1 := if j1 < i then j1 else j1 + 1;
      var o2 := if j2 < i then j2 else j2 + 1;
      assert s'[j1] == s[o1] && s'[j2] == s[o2];
    }
  }

  lemma ChainRemovedOk(s: seq<Entry>, c: nat, n: nat, m: Table, k: FlowKey)
    requires n > 0 && ChainOk(s, c, n, m) && BucketIndex(k, n) != c
    ensures ChainOk(s, c, n, m - {k})
  {
    forall j | 0 <= j < |s| ensures s[j].key != k {
      assert BucketIndex(s[j].key, n) == c;
    }
  }

  lemma ChainEraseFinds(s: seq<Entry>, i: nat, k': FlowKey)
    requires i < |s| && IndexOf(s, k') >= 0 && k' != s[i].key
    ensures IndexOf(ChainErase(s, i), k') >= 0
  {
    var j := IndexOf(s, k');
    FoundAt(ChainErase(s, i), k', if j < i then j else j - 1);
  }

  lemma EraseKeepsTable(bs: seq<seq<Entry>>, m: Table, b: nat, i: nat)
    requires TableOk(bs, m)
    requires b < |bs| && i < |bs[b]|
    ensures TableOk(bs[b := ChainErase(bs[b], i)], m - {bs[b][i].key})
  {
    var n := |bs|;
    var gone := bs[b][i].key;
    var bs' := bs[b := ChainErase(bs[b], i)];
    var m' := m - {gone};
    assert ChainOk(bs[b], b, n, m);
    forall c | 0 <= c < n ensures ChainOk(bs'[c], c, n, m') {
      if c == b {
        ChainEraseOk(bs[b], b, n, m, i);
      } else {
        ChainRemovedOk(bs[c], c, n, m, gone);
      }
    }
    forall k' | k' in m' ensures IndexOf(bs'[BucketIndex(k', n)], k') >= 0 {
      if BucketIndex(k', n) == b {
        ChainEraseFinds(bs[b], i, k');
      }
    }
  }

  /** The chain with its i-th entry moved to the head. */
  function ChainToFront(s: seq<Entry>, i: nat): seq<Entry>
    requires i < |s|
  {
    [s[i]] + s[..i] + s[i + 1..]
  }

  /** Where the j-th entry of the reordered chain came from. */
  function ToFrontOrigin(i: nat, j: nat): nat {
    if j == 0 then i else if j <= i then j - 1 else j
  }

  lemma ToFrontAt(s: seq<Entry>, i: nat, j: nat)
    requires i < |s| && j < |s|
    ensures |ChainToFront(s, i)| == |s|
    ensures ToFrontOrigin(i, j) < |s| && ChainToFront(s, i)[j] == s[ToFrontOrigin(i, j)]
  {
  }

  lemma ChainToFrontOk(s: seq<Entry>, b: nat, n: nat, m: Table, i: nat)
    requires n > 0 && ChainOk(s, b, n, m) && i < |s|
    ensures ChainOk(ChainToFront(s, i), b, n, m)
  {
    var s' := ChainToFront(s, i);
    forall j | 0 <= j < |s'|
      ensures BucketIndex(s'[j].key, n) == b && s'[j].key in m && m[s'[j].key] == s'[j].value
    {
      ToFrontAt(s, i, j);
    }
    forall j1, j2 | 0 <= j1 < j2 < |s'| ensures s'[j1].key != s'[j2].key {
      ToFrontAt(s, i, j1);
      ToFrontAt(s, i, j2);
      var o1, o2 := ToFrontOrigin(i, j1), ToFrontOrigin(i, j2);
      assert o1 != o2;
      if o1 < o2 {
        assert s[o1].key != s[o2].key;
      } else {
        assert s[o2].key != s[o1].key;
      }
    }
  }

  lemma ChainToFrontFinds(s: seq<Entry>, i: nat, k': FlowKey)
    requires i < |s| && IndexOf(s, k') >= 0
    ensures IndexOf(ChainToFront(s, i), k') >= 0
  {
    var j := IndexOf(s, k');
    var j' := if j == i then 0 else if j < i then j + 1 else j;
    ToFrontAt(s, i, j');
    FoundAt(ChainToFront(s, i), k', j');
  }

  lemma ToFrontKeepsTable(bs: seq<seq<Entry>>, m: Table, b: nat, i: nat)
    requires TableOk(bs, m)
    requires b < |bs| && i < |bs[b]|
    ensures TableOk(bs[b := ChainToFront(bs[b], i)], m)
  {
    var n := |bs|;
    var bs' := bs[b := ChainToFront(bs[b], i)];
    assert ChainOk(bs[b], b, n, m);
    ChainToFrontOk(bs[b], b, n, m, i);
    forall k' | k' in m ensures IndexOf(bs'[BucketIndex(k', n)], k') >= 0 {
      if BucketIndex(k', n) == b {
        ChainToFrontFinds(bs[b], i, k');
      }
    }
  }

  /** The entries of the chains in iteration order: bucket by bucket, each chain from its head. */
  ghost function Listing(bs: seq<seq<Entry>>): seq<Entry>
    decreases |bs|
  {
    if bs == [] then [] else Listing(bs[..|bs| - 1]) + bs[|bs| - 1]
  }

  lemma {:induction false} ListingHolds(bs: seq<seq<Entry>>, e: Entry)
    ensures e in Listing(bs) <==> exists b, j | 0 <= b < |bs| && 0 <= j < |bs[b]| :: bs[b][j] == e
    decreases |bs|
  {
    if bs != [] {
      var front := bs[..|bs| - 1];
      ListingHolds(front, e);
      if e in Listing(bs) {
        if e in Listing(front) {
          var b, j :| 0 <= b < |front| && 0 <= j < |front[b]| && front[b][j] == e;
          assert bs[b][j] == e;
        } else {
          var j :| 0 <= j < |bs[|bs| - 1]| && bs[|bs| - 1][j] == e;
        }
      }
      if exists b, j | 0 <= b < |bs| && 0 <= j < |bs[b]| :: bs[b][j] == e {
        var b, j :| 0 <= b < |bs| && 0 <= j < |bs[b]| && bs[b][j] == e;
        if b < |bs| - 1 {
          assert front[b][j] == e;
        } else {
          assert bs[|bs| - 1][j] == e;
        }
      }
    }
  }

  /** An entry is listed exactly when its key maps to its value. */
  lemma ListingIsContents(bs: seq<seq<Entry>>, m: Table, e: Entry)
    requires TableOk(bs, m)
    ensures e in Listing(bs) <==> e.key in m && m[e.key] == e.value
  {
    ListingHolds(bs, e);
    if e in Listing(bs) {
      var b, j :| 0 <= b < |bs| && 0 <= j < |bs[b]| && bs[b][j] == e;
      assert ChainOk(bs[b], b, |bs|, m);
    }
    if e.key in m && m[e.key] == e.value {
      LookupAgrees(bs, m, e.key);
      var b := BucketIndex(e.key, |bs|);
      assert bs[b][IndexOf(bs[b], e.key)] == e;
    }
  }

  /** Whether a dump of the given kind shows an entry. */
  predicate Shown(e: Entry, all: bool, now: Timestamp, timeout: UInt32) {
    all || !IsExpired(now, e.value.ts, timeout)
  }

  /** The entries of s a dump shows, in order. */
  function ShownOf(s: seq<Entry>, all: bool, now: Timestamp, timeout: UInt32): seq<Entry>
    decreases |s|
  {
    if s == [] then []
    else
      var last := s[|s| - 1];
      ShownOf(s[..|s| - 1], all, now, timeout) + (if Shown(last, all, now, timeout) then [last] else [])
  }

  lemma {:induction false} ShownOfHolds(s: seq<Entry>, all: bool, now: Timestamp, timeout: UInt32, e: Entry)
    ensures e in ShownOf(s, all, now, timeout) <==> e in s && Shown(e, all, now, timeout)
    decreases |s|
  {
    if s != [] {
      ShownOfHolds(s[..|s| - 1], all, now, timeout, e);
      assert s == s[..|s| - 1] + [s[|s| - 1]];
    }
  }

  /** The first upto entries of chain s are not doomed. */
  ghost predicate PrefixClean(s: seq<Entry>, upto: nat, doomed: (FlowKey, FlowValue) -> bool) {
    upto <= |s| && forall j | 0 <= j < upto :: !doomed(s[j].key, s[j].value)
  }

  /** Chains lo up to (not including) hi hold no doomed entry. */
  ghost predicate ChainsClean(bs: seq<seq<Entry>>, lo: nat, hi: nat, doomed: (FlowKey, FlowValue) -> bool) {
    hi <= |bs| && forall c | lo <= c < hi :: PrefixClean(bs[c], |bs[c]|, doomed)
  }

  /** m is what is left of m0 after some doomed entries were erased. */
  ghost predicate Shrunk(m: Table, m0: Table, doomed: (FlowKey, FlowValue) -> bool) {
    && (forall k | k in m :: k in m0 && m[k] == m0[k])
    && (forall k | k in m0 && !doomed(k, m0[k]) :: k in m)
  }

  lemma ShrunkErase(m: Table, m0: Table, doomed: (FlowKey, FlowValue) -> bool, k: FlowKey)
    requires Shrunk(m, m0, doomed) && k in m && doomed(k, m[k])
    ensures Shrunk(m - {k}, m0, doomed)
  {
  }

  lemma ShrunkDone(m: Table, m0: Table, doomed: (FlowKey, FlowValue) -> bool)
    requires Shrunk(m, m0, doomed)
    requires forall k | k in m :: !doomed(k, m[k])
    ensures m == Without(m0, doomed)
  {
  }

  lemma PrefixCleanErase(s: seq<Entry>, i: nat, doomed: (FlowKey, FlowValue) -> bool)
    requires PrefixClean(s, i, doomed) && i < |s|
    ensures PrefixClean(ChainErase(s, i), i, doomed)
  {
    var s' := ChainErase(s, i);
    forall j | 0 <= j < i ensures s'[j] == s[j] {
    }
  }

  lemma ChainsCleanUpdate(bs: seq<seq<Entry>>, lo: nat, hi: nat, doomed: (FlowKey, FlowValue) -> bool, c: nat, t: seq<Entry>)
    requires ChainsClean(bs, lo, hi, doomed) && hi <= c < |bs|
    ensures ChainsClean(bs[c := t], lo, hi, doomed)
  {
    forall c' | lo <= c' < hi ensures bs[c := t][c'] == bs[c'] {
    }
  }

  lemma ChainsCleanExtend(bs: seq<seq<Entry>>, lo: nat, hi: nat, doomed: (FlowKey, FlowValue) -> bool)
    requires ChainsClean(bs, lo, hi, doomed) && hi < |bs| && PrefixClean(bs[hi], |bs[hi]|, doomed)
    ensures ChainsClean(bs, lo, hi + 1, doomed)
  {
  }

  /** A table whose chains hold no doomed entry has no doomed key. */
  lemma NoDoomedEntry(bs: seq<seq<Entry>>, m: Table, doomed: (FlowKey, FlowValue) -> bool)
    requires TableOk(bs, m) && ChainsClean(bs, 0, |bs|, doomed)
    ensures forall k | k in m :: !doomed(k, m[k])
  {
    forall k | k in m ensures !doomed(k, m[k]) {
      LookupAgrees(bs, m, k);
      var b := BucketIndex(k, |bs|);
      assert PrefixClean(bs[b], |bs[b]|, doomed);
    }
  }

  /** Entries of chains other than b are never doomed by a predicate confined to bucket b. */
  lemma OtherChainsClean(bs: seq<seq<Entry>>, m: Table, b: nat, doomed: (FlowKey, FlowValue) -> bool)
    requires TableOk(bs, m) && b < |bs|
    requires forall k, v :: doomed(k, v) ==> BucketIndex(k, |bs|) == b
    requires PrefixClean(bs[b], |bs[b]|, doomed)
    ensures ChainsClean(bs, 0, |bs|, doomed)
  {
    forall c | 0 <= c < |bs| ensures PrefixClean(bs[c], |bs[c]|, doomed) {
      if c != b {
        assert ChainOk(bs[c], c, |bs|, m);
      }
    }
  }

  lemma ListingStep(bs: seq<seq<Entry>>, cb: nat)
    requires cb < |bs|
    ensures Listing(bs[..cb + 1]) == Listing(bs[..cb]) + bs[cb]
  {
    assert bs[..cb + 1][..cb] == bs[..cb];
  }

  lemma PrefixSnoc(done: seq<Entry>, s: seq<Entry>, i: nat)
    requires i < |s|
    ensures done + s[..i + 1] == (done + s[..i]) + [s[i]]
  {
    assert s[..i + 1] == s[..i] + [s[i]];
  }

  lemma ShownOfSnoc(s: seq<Entry>, e: Entry, all: bool, now: Timestamp, timeout: UInt32)
    ensures ShownOf(s + [e], all, now, timeout) == ShownOf(s, all, now, timeout) + (if Shown(e, all, now, timeout) then [e] else [])
  {
    assert (s + [e])[..|s|] == s;
  }

  /** A dump lists exactly the entries of the mapping it shows. */
  lemma DumpShowsContents(bs: seq<seq<Entry>>, m: Table, all: bool, now: Timestamp, timeout: UInt32)
    requires TableOk(bs, m)
    ensures forall e :: e in ShownOf(Listing(bs), all, now, timeout) <==> e.key in m && m[e.key] == e.value && Shown(e, all, now, timeout)
  {
    forall e ensures e in ShownOf(Listing(bs), all, now, timeout) <==> e.key in m && m[e.key] == e.value && Shown(e, all, now, timeout) {
      ShownOfHolds(Listing(bs), all, now, timeout, e);
      ListingIsContents(bs, m, e);
    }
  }

  // Numbers of the element's write handlers (the read handlers take 0 to 4).
  const H_CLEAR := 5
  const H_REMOVE := 6
  const H_MANUAL_GC := 7

  class FFT {
    var timeout: UInt32
    var loopAvoidance: bool
    var gcOnAdd: bool
    var gcOnCheck: bool

    /** The bucket chains; the hash table's bucket count is fixed. */
    const buckets: array<seq<Entry>>

    /** The mapping the chains hold. */
    ghost var Contents: Table

    ghost predicate Valid()
      reads this, buckets
    {
      TableOk(buckets[..], Contents)
    }

    /** An empty table with the element's default settings. */
    constructor (bucketCount: nat)
      requires bucketCount > 0
      ensures Valid() && fresh(buckets) && buckets.Length == bucketCount
      ensures Contents == map[]
      ensures timeout == DEFAULT_TIMEOUT && loopAvoidance && !gcOnAdd && !gcOnCheck
    {
      timeout, loopAvoidance, gcOnAdd, gcOnCheck := DEFAULT_TIMEOUT, true, false, false;
      buckets := new seq<Entry>[bucketCount](_ => []);
      Contents := map[];
    }

    /** The bucket of key k. */
    function Bucket(k: FlowKey): (b: nat)
      reads buckets
      requires buckets.Length > 0
      ensures b < buckets.Length
    {
      BucketIndex(k, buckets.Length)
    }

    /** Write k := v, as lookup-with-insert followed by field assignment does. */
    method Write(k: FlowKey, v: FlowValue)
      requires Valid()
      modifies this`Contents, buckets
      ensures Valid()
      ensures Contents == old(Contents)[k := v]
    {
      var b := Bucket(k);
      WriteKeepsTable(buckets[..], Contents, k, v);
      buckets[b] := ChainWrite(buckets[b], k, v);
      Contents := Contents[k := v];
      assert buckets[..] == old(buckets[..])[b := ChainWrite(old(buckets[b]), k, v)];
    }

    /** Erase the i-th entry of bucket b, as erasing through an iterator does. */
    method EraseAt(b: nat, i: nat)
      requires Valid()
      requires b < buckets.Length && i < |buckets[b]|
      modifies this`Contents, buckets
      ensures Valid()
      ensures Contents == old(Contents) - {old(buckets[b][i]).key}
      ensures buckets[..] == old(buckets[..])[b := ChainErase(old(buckets[b]), i)]
    {
      EraseKeepsTable(buckets[..], Contents, b, i);
      Contents := Contents - {buckets[b][i].key};
      buckets[b] := ChainErase(buckets[b], i);
      assert buckets[..] == old(buckets[..])[b := ChainErase(old(buckets[b]), i)];
    }

    /** Look k up and, when found, move it to the head of its chain. */
    method FindPrefer(k: FlowKey) returns (found: bool)
      requires Valid()
      modifies buckets
      ensures Valid()
      ensures found <==> k in Contents
      ensures found ==> |buckets[Bucket(k)]| > 0 && buckets[Bucket(k)][0].key == k
    {
      var b := Bucket(k);
      var i := IndexOf(buckets[b], k);
      LookupAgrees(buckets[..], Contents, k);
      found := i >= 0;
      if found {
        ToFrontKeepsTable(buckets[..], Contents, b, i);
        buckets[b] := ChainToFront(buckets[b], i);
        assert buckets[..] == old(buckets[..])[b := ChainToFront(old(buckets[b]), i)];
      }
    }

    /**
     * Walk every entry in iteration order, erasing the doomed ones: the
     * loop shared by port removal and the full sweep.
     */
    method EraseWhere(doomed: (FlowKey, FlowValue) -> bool)
      requires Valid()
      modifies this`Contents, buckets
      ensures Valid()
      ensures Contents == Without(old(Contents), doomed)
    {
      var n := buckets.Length;
      var cb, ci := 0, 0;
      while cb < n
        invariant 0 <= cb <= n && buckets.Length == n
        invariant Valid()
        invariant Shrunk(Contents, old(Contents), doomed)
        invariant ChainsClean(buckets[..], 0, cb, doomed)
        invariant cb < n ==> PrefixClean(buckets[cb], ci, doomed)
        decreases n - cb, if cb < n then |buckets[cb]| - ci else 0
      {
        if ci < |buckets[cb]| {
          var e := buckets[cb][ci];
          if doomed(e.key, e.value) {
            assert ChainOk(buckets[cb], cb, n, Contents);
            ghost var bs := buckets[..];
            ShrunkErase(Contents, old(Contents), doomed, e.key);
            PrefixCleanErase(buckets[cb], ci, doomed);
            ChainsCleanUpdate(bs, 0, cb, doomed, cb, ChainErase(bs[cb], ci));
            EraseAt(cb, ci);
          } else {
            ci := ci + 1;
          }
        } else {
          ChainsCleanExtend(buckets[..], 0, cb, doomed);
          cb, ci := cb + 1, 0;
        }
      }
      NoDoomedEntry(buckets[..], Contents, doomed);
      ShrunkDone(Contents, old(Contents), doomed);
    }

    /**
     * The bucket sweep seeded at k: find k (moving it to the head of its
     * chain), then walk forward, erasing expired entries, until the walk
     * reaches an entry of another bucket or the end of the table.
     */
    method BucketGarbageCollection(k: FlowKey, ts: Timestamp)
      requires Valid()
      modifies this`Contents, buckets
      ensures Valid()
      ensures Contents == SweepBucket(old(Contents), k, ts, timeout, buckets.Length)
    {
      var found := FindPrefer(k);
      if !found {
        return;
      }
      var n := buckets.Length;
      var b := Bucket(k);
      var limit := timeout;
      ghost var doomed := (k': FlowKey, v: FlowValue) => BucketIndex(k', n) == b && IsExpired(ts, v.ts, limit);
      var cb, ci := b, 0;
      while cb < n
        invariant b <= cb <= n && buckets.Length == n
        invariant Valid()
        invariant Shrunk(Contents, old(Contents), doomed)
        invariant cb == b ==> PrefixClean(buckets[b], ci, doomed)
        invariant cb > b ==> PrefixClean(buckets[b], |buckets[b]|, doomed)
        decreases n - cb, if cb < n then |buckets[cb]| - ci else 0
      {
        if ci < |buckets[cb]| {
          var e := buckets[cb][ci];
          assert ChainOk(buckets[cb], cb, n, Contents);
          if BucketIndex(e.key, n) != b {
            break;
          }
          if IsExpired(ts, e.value.ts, timeout) {
            ShrunkErase(Contents, old(Contents), doomed, e.key);
            PrefixCleanErase(buckets[cb], ci, doomed);
            EraseAt(cb, ci);
          } else {
            ci := ci + 1;
          }
        } else {
          cb, ci := cb + 1, 0;
        }
      }
      OtherChainsClean(buckets[..], Contents, b, doomed);
      NoDoomedEntry(buckets[..], Contents, doomed);
      ShrunkDone(Contents, old(Contents), doomed);
    }

    /**
     * The field-based insert: declined with -1 when the key is present and
     * its entry is still fresh (and, with loop avoidance, has the same TTL);
     * otherwise the entry is written and 0 returned.
     */
    method AddFlow(src: IPAddress, dst: IPAddress, sp: bv16, dp: bv16, ts: Timestamp,
                   gateway: IPAddress, port: UInt8, ttl: UInt8, overwrite: bool) returns (r: int)
      requires Valid()
      modifies this`Contents, buckets
      ensures Valid()
      ensures (r, Contents) == AddFlowResult(old(Contents), FlowKey(src, dst, sp, dp), FlowValue(ts, gateway, port, ttl),
                                             overwrite, loopAvoidance, gcOnAdd, timeout, buckets.Length)
    {
      var k := FlowKey(src, dst, sp, dp);
      var v := FlowValue(ts, gateway, port, ttl);
      var b := Bucket(k);
      var i := IndexOf(buckets[b], k);
      LookupAgrees(buckets[..], Contents, k);
      var stored := if i >= 0 then buckets[b][i].value else DefaultValue;
      if !overwrite && stored.ts != 0 && !IsExpired(ts, stored.ts, timeout) && (!loopAvoidance || stored.ttl == ttl) {
        return -1;
      }
      Write(k, v);
      if gcOnAdd {
        BucketGarbageCollection(k, ts);
      }
      return 0;
    }

    /** The packet-based insert: always writes the packet's flow. */
    method AddFlowPacket(p: Packet, port: UInt8) returns (r: int)
      requires Valid()
      modifies this`Contents, buckets
      ensures Valid()
      ensures r == 0
      ensures Contents == AddPacketResult(old(Contents), p, port, gcOnAdd, timeout, buckets.Length)
    {
      var k := KeyOf(p);
      var ttl := if p.hasNetworkHeader then p.ip.ttl else 0;
      Write(k, FlowValue(p.ts, p.dstAnno, port, ttl));
      if gcOnAdd {
        BucketGarbageCollection(k, p.ts);
      }
      return 0;
    }

    /** Verify a packet's flow: 1 on a hit (which refreshes the entry), 0 on a miss. */
    method CheckFlow(p: Packet) returns (r: int)
      requires Valid()
      modifies this`Contents, buckets
      ensures Valid()
      ensures (r, Contents) == CheckFlowResult(old(Contents), p, loopAvoidance, gcOnCheck, timeout, buckets.Length)
    {
      var k := KeyOf(p);
      var b := Bucket(k);
      var i := IndexOf(buckets[b], k);
      LookupAgrees(buckets[..], Contents, k);
      r := 0;
      if i >= 0 {
        var stored := buckets[b][i].value;
        r := 1;
        if IsExpired(p.ts, stored.ts, timeout) {
          r := 0;
        }
        if loopAvoidance && p.hasNetworkHeader {
          if stored.ttl != p.ip.ttl {
            r := 0;
          }
        }
        if r == 1 {
          Write(k, stored.(ts := p.ts));
        }
        if gcOnCheck {
          BucketGarbageCollection(k, p.ts);
        }
      }
    }

    /**
     * Route a packet's flow: the stored port when the key is present, -1
     * otherwise. A non-zero stored gateway replaces the packet's destination
     * annotation. The table is not changed and expiry is not checked.
     */
    method RouteFlow(p: Packet) returns (r: int, q: Packet)
      requires Valid()
      ensures KeyOf(p) in Contents <==> r >= 0
      ensures KeyOf(p) in Contents ==>
        && r == Contents[KeyOf(p)].port
        && q == (if Contents[KeyOf(p)].gateway != 0 then p.(dstAnno := Contents[KeyOf(p)].gateway) else p)
      ensures KeyOf(p) !in Contents ==> r == -1 && q == p
    {
      var k := KeyOf(p);
      var b := Bucket(k);
      var i := IndexOf(buckets[b], k);
      LookupAgrees(buckets[..], Contents, k);
      q := p;
      if i >= 0 {
        var port := buckets[b][i].value.port;
        var gateway := buckets[b][i].value.gateway;
        if gateway != 0 {
          q := q.(dstAnno := gateway);
        }
        return port, q;
      } else {
        return -1, q;
      }
    }

    /** Remove every flow whose egress port is p. */
    method RemoveFlows(p: UInt8)
      requires Valid()
      modifies this`Contents, buckets
      ensures Valid()
      ensures Contents == RemovePort(old(Contents), p)
    {
      EraseWhere((k: FlowKey, v: FlowValue) => v.port == p);
    }

    /** The full sweep, with the current time passed in as now. */
    method GlobalGarbageCollection(now: Timestamp)
      requires Valid()
      modifies this`Contents, buckets
      ensures Valid()
      ensures Contents == Collect(old(Contents), now, timeout)
    {
      var limit := timeout;
      EraseWhere((k: FlowKey, v: FlowValue) => IsExpired(now, v.ts, limit));
    }

    /** Empty the table. */
    method Clear()
      requires Valid()
      modifies this`Contents, buckets
      ensures Valid()
      ensures Contents == map[]
    {
      forall b | 0 <= b < buckets.Length {
        buckets[b] := [];
      }
      Contents := map[];
    }

    /** The length of the longest chain (the max_bucket_size read handler). */
    method MaxBucketSize() returns (r: nat)
      requires Valid()
      ensures forall b | 0 <= b < buckets.Length :: |buckets[b]| <= r
      ensures exists b | 0 <= b < buckets.Length :: |buckets[b]| == r
    {
      r := 0;
      var b := 0;
      while b < buckets.Length
        invariant 0 <= b <= buckets.Length
        invariant forall c | 0 <= c < b :: |buckets[c]| <= r
        invariant r == 0 || exists c | 0 <= c < b :: |buckets[c]| == r
      {
        if |buckets[b]| > r {
          r := |buckets[b]|;
        }
        b := b + 1;
      }
      if r == 0 {
        assert |buckets[0]| == 0;
      }
    }

    /**
     * The entries a dump lists, in iteration order: all of them, or only
     * those not expired at now.
     */
    method DumpTable(all: bool, now: Timestamp) returns (listed: seq<Entry>)
      requires Valid()
      ensures forall e :: e in listed <==> e.key in Contents && Contents[e.key] == e.value && Shown(e, all, now, timeout)
    {
      ghost var bs := buckets[..];
      ghost var done: seq<Entry> := [];
      ghost var seen: seq<Entry> := [];
      listed := [];
      var n := buckets.Length;
      var cb, ci := 0, 0;
      while cb < n
        invariant 0 <= cb <= n
        invariant done == Listing(bs[..cb])
        invariant cb < n ==> ci <= |bs[cb]| && seen == done + bs[cb][..ci]
        invariant cb == n ==> seen == done
        invariant listed == ShownOf(seen, all, now, timeout)
        decreases n - cb, if cb < n then |bs[cb]| - ci else 0
      {
        if ci < |buckets[cb]| {
          var e := buckets[cb][ci];
          ShownOfSnoc(seen, e, all, now, timeout);
          PrefixSnoc(done, bs[cb], ci);
          seen := seen + [e];
          if Shown(e, all, now, timeout) {
            listed := listed + [e];
          }
          ci := ci + 1;
        } else {
          assert bs[cb][..ci] == bs[cb];
          ListingStep(bs, cb);
          done := seen;
          cb, ci := cb + 1, 0;
        }
      }
      assert bs[..n] == bs;
      DumpShowsContents(bs, Contents, all, now, timeout);
    }

    /**
     * The write handlers: clear, remove (whose text, when it parses as an
     * unsigned integer, is narrowed to an 8-bit port) and manual_gc; any
     * other handler number fails with -1.
     */
    method WriteHandler(thunk: int, parsedPort: Option<UInt32>, now: Timestamp) returns (r: int)
      requires Valid()
      modifies this`Contents, buckets
      ensures Valid()
      ensures thunk == H_CLEAR ==> r == 0 && Contents == map[]
      ensures thunk == H_REMOVE ==>
        r == 0 && Contents == (if parsedPort.Some? then RemovePort(old(Contents), parsedPort.value % 256) else old(Contents))
      ensures thunk == H_MANUAL_GC ==> r == 0 && Contents == Collect(old(Contents), now, timeout)
      ensures thunk != H_CLEAR && thunk != H_REMOVE && thunk != H_MANUAL_GC ==> r == -1 && Contents == old(Contents)
    {
      if thunk == H_CLEAR {
        Clear();
        return 0;
      } else if thunk == H_REMOVE {
        if parsedPort.Some? {
          RemoveFlows(parsedPort.value % 256);
        }
        return 0;
      } else if thunk == H_MANUAL_GC {
        GlobalGarbageCollection(now);
        return 0;
      }
      return -1;
    }
  }
}
