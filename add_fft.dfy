/**
 * The AddFFT element: learns the flow of every packet it passes into an
 * FFT table with its configured egress port, unless the port is marked
 * down. Marking the port down also removes every flow learnt for it; the
 * mark is lifted by the "up" handler or by the element's timer.
 */
module AddFft {
  import opened FlowKeys
  import opened FlowTableSpec
  import opened FlowTable

  // Handler numbers of the element's write handlers.
  const H_DOWN := 0
  const H_UP := 1

  class AddFFT {
    /** The table and port given at configuration. */
    const table: FFT
    const port: UInt8

    /** Whether learning is suspended for this port. */
    var down: bool

    /** Whether the element's timer has been initialized. */
    var timerInitialized: bool

    ghost predicate Valid()
      reads this, table, table.buckets
    {
      table.Valid()
    }

    /** A configured element; its down flag is not set until initialization. */
    constructor (table: FFT, port: UInt8)
      requires table.Valid()
      ensures Valid()
      ensures this.table == table && this.port == port && !timerInitialized
    {
      this.table := table;
      this.port := port;
      timerInitialized := false;
    }

    /** Initialization clears the down flag and initializes the timer. */
    method Initialize()
      modifies this`down, this`timerInitialized
      ensures !down && timerInitialized
    {
      down := false;
      timerInitialized := true;
    }

    /** Learn the packet's flow unless down; the packet passes unchanged either way. */
    method SimpleAction(p: Packet) returns (q: Packet)
      requires Valid()
      modifies table`Contents, table.buckets
      ensures Valid()
      ensures q == p
      ensures down ==> table.Contents == old(table.Contents)
      ensures !down ==> table.Contents == AddPacketResult(old(table.Contents), p, port, table.gcOnAdd, table.timeout, table.buckets.Length)
    {
      if !down {
        var _ := table.AddFlowPacket(p, port);
      }
      return p;
    }

    /** Learn the flow of every packet of the batch, in order, unless down; the batch passes unchanged. */
    method SimpleActionBatch(batch: seq<Packet>) returns (out: seq<Packet>)
      requires Valid()
      modifies table`Contents, table.buckets
      ensures Valid()
      ensures out == batch
      ensures down ==> table.Contents == old(table.Contents)
      ensures !down ==> table.Contents == InsertAll(old(table.Contents), batch, port, table.gcOnAdd, table.timeout, table.buckets.Length)
    {
      if !down {
        var i := 0;
        while i < |batch|
          invariant 0 <= i <= |batch|
          invariant Valid()
          invariant table.Contents == InsertAll(old(table.Contents), batch[..i], port, table.gcOnAdd, table.timeout, table.buckets.Length)
        {
          var _ := table.AddFlowPacket(batch[i], port);
          assert batch[..i + 1][..i] == batch[..i];
          i := i + 1;
        }
        assert batch[..i] == batch;
      }
      return batch;
    }

    /**
     * Mark the port down (only once the timer is initialized, which also
     * arms it) and remove every flow learnt for the port.
     */
    method SetDown()
      requires Valid()
      modifies this`down, table`Contents, table.buckets
      ensures Valid()
      ensures down == (old(timerInitialized) || old(down))
      ensures table.Contents == RemovePort(old(table.Contents), port)
    {
      if timerInitialized {
        down := true;
      }
      table.RemoveFlows(port);
    }

    /** Lift the down mark. */
    method SetUp()
      modifies this`down
      ensures !down
    {
      down := false;
    }

    /** The timer lifts the down mark. */
    method RunTimer()
      modifies this`down
      ensures !down
    {
      down := false;
    }

    /** The write handlers: "down" and "up" return 0; any other handler number fails with -1. */
    method WriteHandler(thunk: int) returns (r: int)
      requires Valid()
      modifies this`down, table`Contents, table.buckets
      ensures Valid()
      ensures thunk == H_DOWN ==>
        r == 0 && down == (old(timerInitialized) || old(down)) && table.Contents == RemovePort(old(table.Contents), port)
      ensures thunk == H_UP ==> r == 0 && !down && table.Contents == old(table.Contents)
      ensures thunk != H_DOWN && thunk != H_UP ==> r == -1 && down == old(down) && table.Contents == old(table.Contents)
    {
      if thunk == H_DOWN {
        SetDown();
        return 0;
      } else if thunk == H_UP {
        SetUp();
        return 0;
      }
      return -1;
    }
  }

  /**
   * While the port is up and no garbage collection runs on insert, a batch
   * leaves every flow it carries mapped to its last packet's value with the
   * element's port, and every other flow untouched.
   */
  lemma BatchLearnsLastPacket(m: Table, batch: seq<Packet>, port: UInt8, timeout: UInt32, n: nat, i: nat)
    requires n > 0 && i < |batch|
    requires forall j | i < j < |batch| :: KeyOf(batch[j]) != KeyOf(batch[i])
    ensures var m' := InsertAll(m, batch, port, false, timeout, n);
      KeyOf(batch[i]) in m' && m'[KeyOf(batch[i])].port == port && m'[KeyOf(batch[i])].ts == batch[i].ts
  {
    InsertAllLastWins(m, batch, port, timeout, n);
  }
}
