/**
  The in-flight buffer ring of the encoder (CNvQueue in NvEncodeAPI.h) and the
  slot payload types declared beside it.

  A ring of `size` slots is a table whose entries name slots (the C++ table
  holds pointers into the encoder's buffer array; here an entry is an index
  into that array). Two cursors walk the table: the pending cursor at the
  oldest slot handed out and not yet reclaimed, the available cursor at the
  next slot to hand out. The pure functions below give the meaning of a
  cursor state (which slots are pending, which are available) and the effect
  of each operation; the class `NvQueue` is the mutable object and is proved
  to follow them.
 */
module NvEncodeApi {
  import opened Wrappers
  import opened MediaDef

  /** Number of slots in the encoder's buffer array. */
  const MAX_ENCODE_QUEUE: nat := 32

  // ---------------------------------------------------------------------------
  // Slot payload types

  /** NVENCSTATUS, reduced to the codes the pipeline itself produces. */
  datatype NvEncStatus = Success | ErrInvalidParam | ErrOutOfMemory | ErrGeneric | ErrDevice(code: nat)

  /** NV_ENC_PIC_TYPE. */
  datatype PicType = P | B | I | IDR | BI | Skipped | IntraRefresh | Unknown

  /** NV_ENC_LOCK_BITSTREAM: what reading back one completed slot yields. */
  datatype LockBitstream = LockBitstream(hasBuffer: bool, sizeInBytes: nat, pictureType: PicType)

  /**
    EncodeBuffer, as far as the pipeline inspects it: whether the input came
    from device memory, and whether a device surface is still mapped for it
    (hDeviceInputSurface != nullptr).
   */
  datatype EncodeBuffer = EncodeBuffer(deviceSurface: bool, mappedSurface: bool)

  /** EncodeFrameConfig: one frame handed to EncodeFrame. */
  datatype EncodeFrameConfig = EncodeFrameConfig(
    yuv: Planes,
    dptr: nat,
    stride: seq<nat>,
    width: nat,
    height: nat)

  // ---------------------------------------------------------------------------
  // Cursor model

  datatype Cursors = Cursors(size: nat, pendingCount: nat, availableIdx: nat, pendingIdx: nat)

  /** Position `i` of a table of `n` entries read round the end once. */
  function Wrap(i: nat, n: nat): (j: nat)
    requires i < 2 * n
    ensures j < n
    ensures i < n ==> j == i
    ensures i >= n ==> j == i - n
  {
    if i < n then i else i - n
  }

  /** Reading round the end once is the remainder the source computes. */
  lemma WrapIsMod(i: nat, n: nat)
    requires i < 2 * n
    ensures Wrap(i, n) == i % n
  {
    if i >= n {
      assert i == (i - n) + 1 * n;
    }
  }

  /** The relation the two cursors and the pending count keep. */
  ghost predicate CursorsValid(c: Cursors) {
    && c.pendingCount <= c.size
    && (c.size == 0 ==> c.availableIdx == 0 && c.pendingIdx == 0)
    && (c.size > 0 ==>
          && c.availableIdx < c.size
          && c.pendingIdx < c.size
          && c.availableIdx == Wrap(c.pendingIdx + c.pendingCount, c.size))
  }

  /** The `count` table entries from position `start` onwards, wrapping around. */
  function Window(table: seq<nat>, start: nat, count: nat): (w: seq<nat>)
    requires (start < |table| && count <= |table|) || count == 0
    ensures |w| == count
    ensures forall k :: 0 <= k < count ==> w[k] == table[Wrap(start + k, |table|)]
  {
    if count == 0 then [] else seq(count, k requires 0 <= k < count => table[Wrap(start + k, |table|)])
  }

  /** Slots handed out and not yet reclaimed, oldest first. */
  function Pending(table: seq<nat>, c: Cursors): seq<nat>
    requires CursorsValid(c) && |table| == c.size
  {
    Window(table, c.pendingIdx, c.pendingCount)
  }

  /** Slots free to hand out, in the order they will be handed out. */
  function Available(table: seq<nat>, c: Cursors): seq<nat>
    requires CursorsValid(c) && |table| == c.size
  {
    Window(table, c.availableIdx, c.size - c.pendingCount)
  }

  /**
    GetAvailable on a cursor state: refuses exactly when every slot is
    pending; otherwise hands out the first available slot, which becomes the
    newest pending one.
   */
  function Acquire(table: seq<nat>, c: Cursors): (r: (Cursors, Option<nat>))
    requires CursorsValid(c) && |table| == c.size
    ensures CursorsValid(r.0) && r.0.size == c.size
    ensures r.1.None? <==> c.pendingCount == c.size
    ensures r.1.None? ==> r.0 == c
    ensures r.1.Some? ==>
              && r.0.pendingCount == c.pendingCount + 1
              && r.1.value == Available(table, c)[0]
              && Pending(table, r.0) == Pending(table, c) + [r.1.value]
              && Available(table, r.0) == Available(table, c)[1..]
  {
    if c.pendingCount == c.size then
      (c, None)
    else
      var n := c.size;
      var c' := c.(availableIdx := Wrap(c.availableIdx + 1, n), pendingCount := c.pendingCount + 1);
      assert Pending(table, c') == Pending(table, c) + [table[c.availableIdx]];
      assert Available(table, c') == Available(table, c)[1..];
      (c', Some(table[c.availableIdx]))
  }

  /**
    GetPending on a cursor state: refuses exactly when nothing is pending;
    otherwise hands back the oldest pending slot, which becomes the last
    available one.
   */
  function Reclaim(table: seq<nat>, c: Cursors): (r: (Cursors, Option<nat>))
    requires CursorsValid(c) && |table| == c.size
    ensures CursorsValid(r.0) && r.0.size == c.size
    ensures r.1.None? <==> c.pendingCount == 0
    ensures r.1.None? ==> r.0 == c
    ensures r.1.Some? ==>
              && r.0.pendingCount + 1 == c.pendingCount
              && r.1.value == Pending(table, c)[0]
              && Pending(table, r.0) == Pending(table, c)[1..]
              && Available(table, r.0) == Available(table, c) + [r.1.value]
  {
    if c.pendingCount == 0 then
      (c, None)
    else
      var n := c.size;
      var c' := c.(pendingIdx := Wrap(c.pendingIdx + 1, n), pendingCount := c.pendingCount - 1);
      assert Pending(table, c') == Pending(table, c)[1..];
      assert Wrap(c.availableIdx + (n - c.pendingCount), n) == c.pendingIdx;
      assert Available(table, c') == Available(table, c) + [table[c.pendingIdx]];
      (c', Some(table[c.pendingIdx]))
  }

  /**
    The pending slots followed by the available ones are the table read from
    the pending cursor round to itself: a rotation of the table.
   */
  lemma PendingThenAvailableIsRotation(table: seq<nat>, c: Cursors)
    requires CursorsValid(c) && |table| == c.size && c.size > 0
    ensures Pending(table, c) + Available(table, c) == Window(table, c.pendingIdx, c.size)
  {
    assert c.availableIdx == Wrap(c.pendingIdx + c.pendingCount, c.size);
  }

  lemma RotationIsPermutation(table: seq<nat>, start: nat)
    requires start < |table|
    ensures multiset(Window(table, start, |table|)) == multiset(table)
  {
    assert Window(table, start, |table|) == table[start..] + table[..start];
    assert table == table[..start] + table[start..];
  }

  /**
    Every slot of the table is either pending or available, and is counted
    exactly as often as the table names it: the two partitions together are
    a permutation of the table.
   */
  lemma SlotsPartitioned(table: seq<nat>, c: Cursors)
    requires CursorsValid(c) && |table| == c.size
    ensures multiset(Pending(table, c)) + multiset(Available(table, c)) == multiset(table)
  {
    if c.size > 0 {
      PendingThenAvailableIsRotation(table, c);
      RotationIsPermutation(table, c.pendingIdx);
      assert multiset(Pending(table, c) + Available(table, c))
          == multiset(Pending(table, c)) + multiset(Available(table, c));
    }
  }

  // ---------------------------------------------------------------------------
  // Runs of operations

  datatype RingOp = GetAvailableOp | GetPendingOp

  /** What a run of operations did: the final cursors and the slots each kind of call returned. */
  datatype RingTrace = RingTrace(final: Cursors, acquired: seq<nat>, reclaimed: seq<nat>)

  /** One operation, as a trace of length at most one. */
  function Step(table: seq<nat>, c: Cursors, op: RingOp): (r: RingTrace)
    requires CursorsValid(c) && |table| == c.size
    ensures CursorsValid(r.final) && r.final.size == c.size
    ensures Pending(table, c) + r.acquired == r.reclaimed + Pending(table, r.final)
  {
    if op == GetAvailableOp then
      var (c1, s) := Acquire(table, c);
      RingTrace(c1, if s.Some? then [s.value] else [], [])
    else
      var (c1, s) := Reclaim(table, c);
      assert s.Some? ==> Pending(table, c) == [s.value] + Pending(table, c1);
      RingTrace(c1, [], if s.Some? then [s.value] else [])
  }

  function Run(table: seq<nat>, c: Cursors, ops: seq<RingOp>): (r: RingTrace)
    requires CursorsValid(c) && |table| == c.size
    ensures CursorsValid(r.final) && r.final.size == c.size
    decreases |ops|
  {
    if ops == [] then
      RingTrace(c, [], [])
    else
      var first := Step(table, c, ops[0]);
      var rest := Run(table, first.final, ops[1..]);
      RingTrace(rest.final, first.acquired + rest.acquired, first.reclaimed + rest.reclaimed)
  }

  /** Two FIFO steps compose: what goes in behind what was queued comes out, in order, ahead of what stays. */
  lemma FifoCompose(q0: seq<nat>, in1: seq<nat>, out1: seq<nat>, q1: seq<nat>,
                    in2: seq<nat>, out2: seq<nat>, q2: seq<nat>)
    requires q0 + in1 == out1 + q1 && q1 + in2 == out2 + q2
    ensures q0 + (in1 + in2) == (out1 + out2) + q2
  {
    calc {
      q0 + (in1 + in2);
      (q0 + in1) + in2;
      out1 + (q1 + in2);
      out1 + (out2 + q2);
    }
  }

  /**
    FIFO hand-back: across any run, what was pending before plus what was
    handed out equals what was handed back plus what is pending after.
   */
  lemma {:induction false} RunIsFifo(table: seq<nat>, c: Cursors, ops: seq<RingOp>)
    requires CursorsValid(c) && |table| == c.size
    ensures Pending(table, c) + Run(table, c, ops).acquired
         == Run(table, c, ops).reclaimed + Pending(table, Run(table, c, ops).final)
    decreases |ops|
  {
    if ops != [] {
      var first := Step(table, c, ops[0]);
      var rest := Run(table, first.final, ops[1..]);
      RunIsFifo(table, first.final, ops[1..]);
      FifoCompose(Pending(table, c), first.acquired, first.reclaimed, Pending(table, first.final),
                  rest.acquired, rest.reclaimed, Pending(table, rest.final));
    }
  }

  /**
    Starting from an empty ring, the slots handed back are the slots handed
    out, in the same order, each at most once: a prefix of them.
   */
  lemma FromEmptyReclaimedIsPrefixOfAcquired(table: seq<nat>, c: Cursors, ops: seq<RingOp>)
    requires CursorsValid(c) && |table| == c.size && c.pendingCount == 0
    ensures Run(table, c, ops).reclaimed <= Run(table, c, ops).acquired
  {
    RunIsFifo(table, c, ops);
    var r := Run(table, c, ops);
    assert Pending(table, c) == [];
    assert r.acquired == r.reclaimed + Pending(table, r.final);
  }

  function Repeat(op: RingOp, n: nat): (ops: seq<RingOp>)
    ensures |ops| == n && forall k :: 0 <= k < n ==> ops[k] == op
  {
    if n == 0 then [] else [op] + Repeat(op, n - 1)
  }

  /**
    Capacity: from any state, exactly the available slots can be acquired, in
    order, and the acquisition after them is refused.
   */
  lemma {:induction false} FillToCapacity(table: seq<nat>, c: Cursors)
    requires CursorsValid(c) && |table| == c.size
    ensures var r := Run(table, c, Repeat(GetAvailableOp, c.size - c.pendingCount));
            && r.acquired == Available(table, c)
            && r.reclaimed == []
            && r.final.pendingCount == c.size
            && Acquire(table, r.final).1 == None
    decreases c.size - c.pendingCount
  {
    var n := c.size - c.pendingCount;
    if n > 0 {
      var ops := Repeat(GetAvailableOp, n);
      var (c1, s) := Acquire(table, c);
      assert ops[1..] == Repeat(GetAvailableOp, n - 1);
      FillToCapacity(table, c1);
    }
  }

  /**
    When every slot is pending, draining the oldest one and then asking for a
    free one hands back that same slot: it is the only one free.
   */
  lemma FullRingReusesDrainedSlot(table: seq<nat>, c: Cursors)
    requires CursorsValid(c) && |table| == c.size && 0 < c.pendingCount == c.size
    ensures Reclaim(table, c).1.Some?
    ensures Acquire(table, Reclaim(table, c).0).1 == Reclaim(table, c).1
    ensures Acquire(table, Reclaim(table, c).0).0.pendingCount == c.size
  {
    assert Available(table, c) == [];
  }

  // ---------------------------------------------------------------------------
  // The ring object

  /** CNvQueue<EncodeBuffer>: a fixed table of slot references and its cursors. */
  class NvQueue {
    var table: array<nat>
    var size: nat
    var pendingCount: nat
    var availableIdx: nat
    var pendingIdx: nat

    function State(): Cursors
      reads this
    {
      Cursors(size, pendingCount, availableIdx, pendingIdx)
    }

    ghost predicate Valid()
      reads this, table
    {
      table.Length == size && CursorsValid(State())
    }

    ghost function PendingSlots(): seq<nat>
      reads this, table
      requires Valid()
    {
      Pending(table[..], State())
    }

    ghost function AvailableSlots(): (a: seq<nat>)
      reads this, table
      requires Valid()
      ensures |a| == size - pendingCount
    {
      Available(table[..], State())
    }

    /** The default constructor: an empty table, every counter zero. */
    constructor ()
      ensures Valid() && fresh(table)
      ensures State() == Cursors(0, 0, 0, 0)
    {
      table := new nat[0];
      size, pendingCount, availableIdx, pendingIdx := 0, 0, 0, 0;
    }

    /** Initialize(items, n): a table of n entries, entry i naming item i, nothing pending. */
    method Initialize(n: nat) returns (ok: bool)
      modifies this
      ensures Valid() && fresh(table)
      ensures State() == Cursors(n, 0, 0, 0) && PendingSlots() == []
      ensures forall i :: 0 <= i < n ==> table[i] == i
      ensures ok
    {
      var t := new nat[n];
      for i := 0 to n
        invariant forall j :: 0 <= j < i ==> t[j] == j
      {
        t[i] := i;
      }
      size := n;
      pendingCount := 0;
      availableIdx := 0;
      pendingIdx := 0;
      table := t;
      ok := true;
    }

    /** GetAvailable: the next free slot, or None when every slot is pending. */
    method GetAvailable() returns (slot: Option<nat>)
      requires Valid()
      modifies this
      ensures Valid() && table == old(table) && table[..] == old(table[..])
      ensures (State(), slot) == Acquire(table[..], old(State()))
      ensures slot.None? <==> old(pendingCount) == old(size)
      ensures slot.None? ==> unchanged(this)
      ensures slot.Some? ==>
                && slot.value == table[old(availableIdx)]
                && size == old(size) && pendingIdx == old(pendingIdx)
                && pendingCount == old(pendingCount) + 1
                && PendingSlots() == old(PendingSlots()) + [slot.value]
    {
      ghost var spec := Acquire(table[..], State());
      if pendingCount == size {
        return None;
      }
      slot := Some(table[availableIdx]);
      WrapIsMod(availableIdx + 1, size);
      availableIdx := (availableIdx + 1) % size;
      pendingCount := pendingCount + 1;
    }

    /** GetPending: the oldest pending slot, or None when nothing is pending. */
    method GetPending() returns (slot: Option<nat>)
      requires Valid()
      modifies this
      ensures Valid() && table == old(table) && table[..] == old(table[..])
      ensures (State(), slot) == Reclaim(table[..], old(State()))
      ensures slot.None? <==> old(pendingCount) == 0
      ensures slot.None? ==> unchanged(this)
      ensures slot.Some? ==>
                && slot.value == table[old(pendingIdx)]
                && size == old(size) && availableIdx == old(availableIdx)
                && pendingCount + 1 == old(pendingCount)
                && old(PendingSlots()) != [] && slot.value == old(PendingSlots())[0]
                && PendingSlots() == old(PendingSlots())[1..]
    {
      ghost var spec := Reclaim(table[..], State());
      if pendingCount == 0 {
        return None;
      }
      slot := Some(table[pendingIdx]);
      WrapIsMod(pendingIdx + 1, size);
      pendingIdx := (pendingIdx + 1) % size;
      pendingCount := pendingCount - 1;
    }
  }
}
