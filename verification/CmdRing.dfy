/** The command ring of the display coprocessor: a 4096-byte ring behind a write pointer of ours and a read register of
    the coprocessor's. */
module CmdRing {
  import opened Words

  const EVE_RAM_CMD_SIZE := 4096
  const FIFO_CAPACITY := EVE_RAM_CMD_SIZE - 4
  const READ_ERROR := 0xFFF

  function Advance(pointer: half, commandSize: half): (r: half)
    ensures r < EVE_RAM_CMD_SIZE
  {
    (pointer + commandSize) % EVE_RAM_CMD_SIZE
  }

  /** Bytes between the read register, of which the low 16 bits are used, and the write pointer. */
  function Fullness(write: half, read: word): (r: half)
    ensures r < EVE_RAM_CMD_SIZE
  {
    (write - read % 0x1_0000) % EVE_RAM_CMD_SIZE
  }

  /** The reported free space, a 16-bit number. */
  function FreeSpace(write: half, read: word): half {
    (FIFO_CAPACITY - Fullness(write, read)) % 0x1_0000
  }

  predicate Stops(write: half, read: word) {
    read == write || read == READ_ERROR
  }

  // ---------- the protocol ----------

  /** The two pointers beside the unbounded counts of bytes written and consumed, and how much of the free space last
      reported the producer has not used yet. */
  datatype Ring = Ring(write: half, read: half, written: nat, consumed: nat, allowance: nat)

  /** Check samples the read register; the samples the producer works from may be old by the time it writes. */
  datatype Event = Check | Produce(size: half) | Consume(size: half)

  const EMPTY := Ring(0, 0, 0, 0, 0)

  predicate Allowed(ring: Ring, event: Event) {
    match event
    case Check => true
    case Produce(size) => size % 4 == 0 && size <= ring.allowance
    case Consume(size) => size % 4 == 0 && size <= Fullness(ring.write, ring.read)
  }

  function Next(ring: Ring, event: Event): Ring
    requires Allowed(ring, event)
  {
    match event
    case Check => ring.(allowance := FreeSpace(ring.write, ring.read))
    case Produce(size) =>
      ring.(write := Advance(ring.write, size), written := ring.written + size, allowance := ring.allowance - size)
    case Consume(size) => ring.(read := Advance(ring.read, size), consumed := ring.consumed + size)
  }

  /** The wrapped pointers stand for the counters, and the producer never holds more allowance than there is room. */
  ghost predicate Refines(ring: Ring) {
    && ring.write == ring.written % EVE_RAM_CMD_SIZE && ring.read == ring.consumed % EVE_RAM_CMD_SIZE
    && ring.written % 4 == 0 && ring.consumed % 4 == 0
    && ring.consumed <= ring.written
    && ring.written - ring.consumed + ring.allowance <= FIFO_CAPACITY
  }

  lemma ModDifference(a: int, b: int)
    requires 0 <= a - b < EVE_RAM_CMD_SIZE
    ensures (a % EVE_RAM_CMD_SIZE - b % EVE_RAM_CMD_SIZE) % EVE_RAM_CMD_SIZE == a - b
  {
  }

  lemma AdvanceIsAdd(count: nat, size: half)
    ensures Advance(count % EVE_RAM_CMD_SIZE, size) == (count + size) % EVE_RAM_CMD_SIZE
  {
  }

  /** What the pointers show is what the counters say: fullness is written minus consumed, free and full add up to 4092,
      equal pointers mean an empty ring and never a full one, and no pointer is the error value. */
  lemma PointersTellCounters(ring: Ring)
    requires Refines(ring)
    ensures Fullness(ring.write, ring.read) == ring.written - ring.consumed
    ensures FreeSpace(ring.write, ring.read) + Fullness(ring.write, ring.read) == FIFO_CAPACITY == 4092
    ensures ring.write == ring.read <==> ring.written == ring.consumed
    ensures ring.write != READ_ERROR && ring.read != READ_ERROR
  {
    ModDifference(ring.written, ring.consumed);
  }

  lemma StepRefines(ring: Ring, event: Event)
    requires Refines(ring) && Allowed(ring, event)
    ensures Refines(Next(ring, event))
  {
    hide Fullness, FreeSpace, Advance;
    match event
    case Check => PointersTellCounters(ring);
    case Produce(size) => ProduceRefines(ring, size);
    case Consume(size) => ConsumeRefines(ring, size);
  }

  lemma FourDivides(a: int, b: int)
    requires a % 4 == 0 && b % 4 == 0
    ensures (a + b) % 4 == 0
  {
  }

  lemma ProduceRefines(ring: Ring, size: half)
    requires Refines(ring) && size % 4 == 0 && size <= ring.allowance
    ensures Refines(Next(ring, Produce(size)))
  {
    hide Fullness, FreeSpace, Advance;
    AdvanceIsAdd(ring.written, size);
    FourDivides(ring.written, size);
  }

  lemma ConsumeRefines(ring: Ring, size: half)
    requires Refines(ring) && size % 4 == 0 && size <= Fullness(ring.write, ring.read)
    ensures Refines(Next(ring, Consume(size)))
  {
    hide Fullness, FreeSpace, Advance;
    PointersTellCounters(ring);
    AdvanceIsAdd(ring.consumed, size);
    FourDivides(ring.consumed, size);
  }

  /** A run: every event allowed where it happens. */
  ghost predicate Runs(events: seq<Event>, rings: seq<Ring>) {
    && |rings| == |events| + 1 && rings[0] == EMPTY
    && forall i :: 0 <= i < |events| ==> Allowed(rings[i], events[i]) && rings[i + 1] == Next(rings[i], events[i])
  }

  /** Over every run of checks, writes within the space reported earlier, and reads within the fullness, in any order:
      the ring refines the counters at each point. */
  lemma {:induction false} EveryRunRefines(events: seq<Event>, rings: seq<Ring>, i: nat)
    requires Runs(events, rings) && i < |rings|
    ensures Refines(rings[i])
    decreases i
  {
    hide Next, Allowed;
    if i > 0 {
      EveryRunRefines(events, rings, i - 1);
      StepRefines(rings[i - 1], events[i - 1]);
    }
  }

  // ---------- the driver ----------

  /** The driver. The ghost ring records what was written through it and what the coprocessor has consumed. */
  class Hal {
    var writeCmdPointer: half
    ghost var ring: Ring

    ghost predicate Valid()
      reads this
    {
      Refines(ring) && ring.write == writeCmdPointer
    }

    constructor ()
      ensures Valid() && ring == EMPTY && writeCmdPointer == 0
    {
      writeCmdPointer := 0;
      ring := EMPTY;
    }

    /** The pointer moves for any size; within the allowance the ring goes on telling the truth. */
    method IncCmdPointer(commandSize: half)
      modifies this
      ensures writeCmdPointer == Advance(old(writeCmdPointer), commandSize)
      ensures old(Valid() && Allowed(ring, Produce(commandSize))) ==>
                Valid() && ring == Next(old(ring), Produce(commandSize))
    {
      hide Refines;
      ghost var legal := Valid() && Allowed(ring, Produce(commandSize));
      writeCmdPointer := (writeCmdPointer + commandSize) % EVE_RAM_CMD_SIZE;
      if legal {
        StepRefines(ring, Produce(commandSize));
        ring := Next(ring, Produce(commandSize));
      }
    }

    /** With the register's true value, the answer is the room that is left, 4092 bytes less those not yet consumed. */
    method CheckCmdFreeSpace(readCmdPointer: word) returns (freespace: half)
      modifies this`ring
      ensures freespace == FreeSpace(writeCmdPointer, readCmdPointer)
      // In numbers, for any register value: 4092 less the difference modulo 4096, in 16 bits.
      ensures var full := (writeCmdPointer - readCmdPointer) % 4096;
              freespace == if full <= 4092 then 4092 - full else 0x1_0000 + 4092 - full
      ensures old(Valid()) && readCmdPointer == old(ring).read ==>
                && Valid() && ring == Next(old(ring), Check) && ring.allowance == freespace
                && freespace == FIFO_CAPACITY - (ring.written - ring.consumed)
    {
      hide Refines;
      LowTwelveBits(writeCmdPointer, readCmdPointer);
      var fullness := (writeCmdPointer - readCmdPointer % 0x1_0000) % EVE_RAM_CMD_SIZE;
      freespace := (EVE_RAM_CMD_SIZE - 4 - fullness) % 0x1_0000;
      if Valid() && readCmdPointer == ring.read {
        PointersTellCounters(ring);
        StepRefines(ring, Check);
        ring := Next(ring, Check);
      }
    }

    /** The coprocessor reading on, seen from the driver. */
    ghost method Consumed(size: half)
      requires Valid() && Allowed(ring, Consume(size))
      modifies this`ring
      ensures Valid() && ring == Next(old(ring), Consume(size))
    {
      StepRefines(ring, Consume(size));
      ring := Next(ring, Consume(size));
    }

    /** The polling loop, given the values that successive reads of the register return. */
    method WaitCmdFifoEmpty(seen: seq<word>) returns (status: half, polls: nat)
      requires exists i :: 0 <= i < |seen| && Stops(writeCmdPointer, seen[i])
      ensures 0 < polls <= |seen|
      ensures forall i :: 0 <= i < polls - 1 ==> !Stops(writeCmdPointer, seen[i])
      ensures Stops(writeCmdPointer, seen[polls - 1])
      ensures forall i :: 0 <= i < polls - 1 ==> seen[i] != writeCmdPointer && seen[i] != 0xFFF
      ensures seen[polls - 1] == writeCmdPointer || seen[polls - 1] == 0xFFF
      ensures status == if seen[polls - 1] == 0xFFF then 0xFF else 0
    {
      var readCmdPointer := seen[0];
      polls := 1;
      while writeCmdPointer != readCmdPointer && readCmdPointer != READ_ERROR
        invariant 0 < polls <= |seen| && readCmdPointer == seen[polls - 1]
        invariant forall i :: 0 <= i < polls - 1 ==> !Stops(writeCmdPointer, seen[i])
        decreases |seen| - polls
      {
        readCmdPointer := seen[polls];
        polls := polls + 1;
      }
      if readCmdPointer == READ_ERROR {
        status := 0xFF;
      } else {
        status := 0;
      }
    }
  }

  // ---------- waiting ----------

  /** The coprocessor's count at successive polls: it never passes what was written, and moves by a command word or more
      until it gets there. */
  ghost predicate Progress(written: nat, counts: seq<nat>) {
    && (forall i :: 0 <= i < |counts| ==> counts[i] <= written && counts[i] % 4 == 0)
    && (forall i :: 0 <= i < |counts| - 1 ==> counts[i + 1] >= if counts[i] == written then written else counts[i] + 4)
  }

  lemma {:induction false} ProgressBound(written: nat, counts: seq<nat>, i: nat)
    requires Progress(written, counts) && i < |counts|
    ensures counts[i] == written || counts[i] >= counts[0] + 4 * i
  {
    if i > 0 {
      ProgressBound(written, counts, i - 1);
      var before, now := counts[i - 1], counts[i];
      assert now >= if before == written then written else before + 4;
    }
  }

  /** Polling a coprocessor that makes progress ends by the poll that the remaining words call for, with success, and at
      that moment everything written has been consumed; success before that is not reported. */
  lemma WaitEnds(ring: Ring, counts: seq<nat>, seen: seq<word>)
    requires Refines(ring) && |counts| == |seen| && Progress(ring.written, counts)
    requires forall i :: 0 <= i < |counts| ==> ring.consumed <= counts[i] && seen[i] == counts[i] % EVE_RAM_CMD_SIZE
    requires |counts| > (ring.written - ring.consumed) / 4
    ensures forall i :: 0 <= i < |seen| ==> (Stops(ring.write, seen[i]) <==> counts[i] == ring.written)
    ensures Stops(ring.write, seen[(ring.written - ring.consumed) / 4])
    ensures forall i :: 0 <= i < |seen| ==> seen[i] != READ_ERROR
  {
    hide Refines, Stops;
    forall i | 0 <= i < |seen|
      ensures seen[i] != READ_ERROR && (Stops(ring.write, seen[i]) <==> counts[i] == ring.written)
    {
      SeenCount(ring, counts[i]);
    }
    ProgressEnds(ring, counts);
  }

  lemma SeenCount(ring: Ring, count: nat)
    requires Refines(ring) && ring.consumed <= count <= ring.written && count % 4 == 0
    ensures var read := count % EVE_RAM_CMD_SIZE;
            read != READ_ERROR && (Stops(ring.write, read) <==> count == ring.written)
  {
    hide Fullness, FreeSpace;
    PointersTellCounters(ring.(read := count % EVE_RAM_CMD_SIZE, consumed := count));
  }

  lemma ProgressEnds(ring: Ring, counts: seq<nat>)
    requires Refines(ring) && Progress(ring.written, counts) && |counts| > (ring.written - ring.consumed) / 4
    requires forall i :: 0 <= i < |counts| ==> ring.consumed <= counts[i]
    ensures 0 <= (ring.written - ring.consumed) / 4 && counts[(ring.written - ring.consumed) / 4] == ring.written
  {
    ProgressBound(ring.written, counts, (ring.written - ring.consumed) / 4);
  }

  /** The reported free space is not free space when the register holds the error value: it wraps to 65535 exactly when
      the write pointer is at the last word, and elsewhere it is 4091 less the write pointer. */
  lemma FreeSpaceOnError(write: half)
    requires write < EVE_RAM_CMD_SIZE && write % 4 == 0
    ensures FreeSpace(write, READ_ERROR) == 0xFFFF <==> write == FIFO_CAPACITY
    ensures write != FIFO_CAPACITY ==> FreeSpace(write, READ_ERROR) == FIFO_CAPACITY - 1 - write
  {
  }

  /** Of the register only the low twelve bits count. */
  lemma LowTwelveBits(write: half, read: word)
    ensures Fullness(write, read) == (write - read) % 4096 == Fullness(write, read % 4096)
  {
    var q := read / 0x1_0000;
    assert read == 0x1_0000 * q + read % 0x1_0000;
    ModuloShift(write - read, 16 * q);
    var p := read / 4096;
    assert read == 4096 * p + read % 4096;
    ModuloShift(write - read, p);
  }

  lemma ModuloShift(x: int, k: nat)
    ensures (x + 4096 * k) % 4096 == x % 4096
  {
  }

  /** For any pointers, free and full add up to the capacity exactly when the ring is not fuller than that. */
  lemma FreeSpaceIff(write: half, read: word)
    ensures FreeSpace(write, read) + Fullness(write, read) == FIFO_CAPACITY <==> Fullness(write, read) <= FIFO_CAPACITY
  {
  }
}
