/**
 * Snowflake id generator (ad-hoc SnowflakeIdGenerator.java).
 *
 * A 64-bit id packs, from high to low bits, the milliseconds since EPOCH, a
 * 10-bit machine id and a 12-bit sequence number that counts ids issued within
 * the same millisecond. The generator's state is (lastTimestamp, sequence).
 *
 * The clock is an input: `clock` holds the successive readings of
 * System.currentTimeMillis that one call of nextId makes, the first by nextId
 * itself and the rest by the polling loop of waitNextMillis.
 */
module Snowflake {
  import opened Wrappers

  const EPOCH: int := 1672531200000
  const MACHINE_ID_BITS: nat := 10
  const SEQUENCE_BITS: nat := 12
  /** ~(-1L << MACHINE_ID_BITS): ten one-bits. */
  const MAX_MACHINE_ID: int := 1023
  /** ~(-1L << SEQUENCE_BITS): twelve one-bits. */
  const MAX_SEQUENCE: int := 4095
  const MACHINE_ID_SHIFT: nat := SEQUENCE_BITS
  const TIMESTAMP_SHIFT: nat := MACHINE_ID_BITS + SEQUENCE_BITS

  /** 2^MACHINE_ID_SHIFT and 2^TIMESTAMP_SHIFT, the factors the two shifts multiply by. */
  const MACHINE_ID_FACTOR: int := 4096
  const TIMESTAMP_FACTOR: int := 4194304

  datatype IdError = MachineIdOutOfRange | ClockMovedBackwards

  /** The generator's mutable state. */
  datatype GenState = GenState(lastTimestamp: int, sequence: int)

  const INITIAL: GenState := GenState(-1, 0)

  predicate ValidMachineId(machineId: int)
  {
    0 <= machineId <= MAX_MACHINE_ID
  }

  /**
   * `((ts - EPOCH) << TIMESTAMP_SHIFT) | (machineId << MACHINE_ID_SHIFT) | sequence`.
   * The shifted fields occupy disjoint bits when the machine id and the
   * sequence are in range, so the bitwise or is a sum (see ShiftOrIsSum).
   */
  function Compose(ts: int, machineId: int, sequence: int): int
  {
    (ts - EPOCH) * TIMESTAMP_FACTOR + machineId * MACHINE_ID_FACTOR + sequence
  }

  /** The three fields of an id. */
  datatype IdFields = IdFields(timestamp: int, machineId: int, sequence: int)

  /** Unpacks an id: arithmetic shifts right and masks. */
  function Decompose(id: int): IdFields
  {
    IdFields(id / TIMESTAMP_FACTOR + EPOCH, (id / MACHINE_ID_FACTOR) % 1024, id % MACHINE_ID_FACTOR)
  }

  /** The fields are recoverable from the id because they do not overlap. */
  lemma DecomposeCompose(ts: int, machineId: int, sequence: int)
    requires ValidMachineId(machineId) && 0 <= sequence <= MAX_SEQUENCE
    ensures Decompose(Compose(ts, machineId, sequence)) == IdFields(ts, machineId, sequence)
  {
    var low := machineId * MACHINE_ID_FACTOR + sequence;
    assert 0 <= low < TIMESTAMP_FACTOR;
    var id := Compose(ts, machineId, sequence);
    assert id == (ts - EPOCH) * TIMESTAMP_FACTOR + low;
    assert id / TIMESTAMP_FACTOR == ts - EPOCH;
    assert id / MACHINE_ID_FACTOR == (ts - EPOCH) * 1024 + machineId;
    assert id % MACHINE_ID_FACTOR == sequence;
  }

  /**
   * On 64-bit words the shifted timestamp, the shifted machine id and the
   * sequence have no bit in common, so or-ing them adds them.
   */
  lemma ShiftOrIsSum(t: bv64, m: bv64, s: bv64)
    requires m <= 1023 && s <= 4095
    ensures (t << 22) | (m << 12) | s == (t << 22) + (m << 12) + s
  {
  }

  /**
   * Ids are ordered like (timestamp, sequence) pairs for one machine: a later
   * timestamp, or the same timestamp with a higher sequence, gives a larger id.
   */
  lemma ComposeIncreasing(machineId: int, ts1: int, seq1: int, ts2: int, seq2: int)
    requires ValidMachineId(machineId)
    requires 0 <= seq1 <= MAX_SEQUENCE && 0 <= seq2 <= MAX_SEQUENCE
    requires ts1 < ts2 || (ts1 == ts2 && seq1 < seq2)
    ensures Compose(ts1, machineId, seq1) < Compose(ts2, machineId, seq2)
  {
    if ts1 < ts2 {
      assert (ts2 - EPOCH) * TIMESTAMP_FACTOR >= (ts1 - EPOCH) * TIMESTAMP_FACTOR + TIMESTAMP_FACTOR;
    }
  }

  /** Some reading at or after index `from` is later than `bound`. */
  ghost predicate ClockPasses(clock: seq<int>, from: nat, bound: int)
  {
    exists j :: from <= j < |clock| && clock[j] > bound
  }

  /** The index of the first reading at or after `from` that is later than `bound`. */
  function FirstAfter(clock: seq<int>, from: nat, bound: int): (k: nat)
    requires ClockPasses(clock, from, bound)
    ensures from <= k < |clock| && clock[k] > bound
    ensures forall j :: from <= j < k ==> clock[j] <= bound
    decreases |clock| - from
  {
    if clock[from] > bound then from
    else
      assert ClockPasses(clock, from + 1, bound) by {
        var j :| from <= j < |clock| && clock[j] > bound;
        assert j != from;
      }
      FirstAfter(clock, from + 1, bound)
  }

  /**
   * The call is about to exhaust the sequence of the current millisecond and
   * will have to wait for the clock to move on.
   */
  predicate MustWait(s: GenState, now: int)
  {
    now == s.lastTimestamp && (s.sequence + 1) % (MAX_SEQUENCE + 1) == 0
  }

  /** What the environment owes one call: a first reading, and a later one if it must wait. */
  ghost predicate ClockReady(s: GenState, clock: seq<int>)
  {
    |clock| > 0 && (MustWait(s, clock[0]) ==> ClockPasses(clock, 1, s.lastTimestamp))
  }

  /**
   * One call of nextId on state `s`: the new state and the id, or the error
   * for a clock that went backwards (the state is then unchanged).
   */
  ghost function NextIdResult(s: GenState, machineId: int, clock: seq<int>): Result<(GenState, int), IdError>
    requires ClockReady(s, clock)
  {
    var now := clock[0];
    if now < s.lastTimestamp then Err(ClockMovedBackwards)
    else if now == s.lastTimestamp then
      var sequence := (s.sequence + 1) % (MAX_SEQUENCE + 1);
      var ts := if sequence == 0 then clock[FirstAfter(clock, 1, s.lastTimestamp)] else now;
      Ok((GenState(ts, sequence), Compose(ts, machineId, sequence)))
    else
      Ok((GenState(now, 0), Compose(now, machineId, 0)))
  }

  /** The sequence is in range and the last timestamp is at or after the initial -1. */
  ghost predicate ValidState(s: GenState)
  {
    0 <= s.sequence <= MAX_SEQUENCE && s.lastTimestamp >= -1
  }

  /**
   * What one call promises: a reading before lastTimestamp is refused; in the
   * same millisecond the sequence counts up modulo 4096 and a wrap to 0 moves
   * to a strictly later millisecond; in a new millisecond the sequence restarts
   * at 0; the new lastTimestamp is the one encoded in the id, never earlier
   * than before; and the id is strictly larger than any id the old state
   * issued.
   */
  lemma NextIdPromises(s: GenState, machineId: int, clock: seq<int>)
    requires ValidMachineId(machineId) && ValidState(s) && ClockReady(s, clock)
    ensures NextIdResult(s, machineId, clock).Err? <==> clock[0] < s.lastTimestamp
    ensures NextIdResult(s, machineId, clock).Ok? ==>
      var (s', id) := NextIdResult(s, machineId, clock).value;
      && ValidState(s')
      && (clock[0] == s.lastTimestamp ==> s'.sequence == (s.sequence + 1) % 4096)
      && (clock[0] > s.lastTimestamp ==> s' == GenState(clock[0], 0))
      && (s'.sequence == 0 ==> s'.lastTimestamp > s.lastTimestamp)
      && s'.lastTimestamp >= s.lastTimestamp
      && Decompose(id) == IdFields(s'.lastTimestamp, machineId, s'.sequence)
      && id > Compose(s.lastTimestamp, machineId, s.sequence)
  {
    var now := clock[0];
    if now >= s.lastTimestamp {
      var (s', id) := NextIdResult(s, machineId, clock).value;
      DecomposeCompose(s'.lastTimestamp, machineId, s'.sequence);
      ComposeIncreasing(machineId, s.lastTimestamp, s.sequence, s'.lastTimestamp, s'.sequence);
    }
  }

  /** Two successive calls on one generator return strictly increasing, hence distinct, ids. */
  lemma SuccessiveIdsIncrease(s: GenState, machineId: int, c1: seq<int>, c2: seq<int>)
    requires ValidMachineId(machineId) && ValidState(s) && ClockReady(s, c1)
    requires NextIdResult(s, machineId, c1).Ok?
    requires ClockReady(NextIdResult(s, machineId, c1).value.0, c2)
    requires NextIdResult(NextIdResult(s, machineId, c1).value.0, machineId, c2).Ok?
    ensures NextIdResult(s, machineId, c1).value.1 < NextIdResult(NextIdResult(s, machineId, c1).value.0, machineId, c2).value.1
  {
    var (s1, id1) := NextIdResult(s, machineId, c1).value;
    NextIdPromises(s, machineId, c1);
    NextIdPromises(s1, machineId, c2);
  }

  class SnowflakeIdGenerator {
    const machineId: int
    var lastTimestamp: int
    var sequence: int

    ghost predicate Valid()
      reads this
    {
      ValidMachineId(machineId) && ValidState(GenState(lastTimestamp, sequence))
    }

    constructor (machineId: int)
      requires ValidMachineId(machineId)
      ensures Valid() && this.machineId == machineId
      ensures GenState(lastTimestamp, sequence) == INITIAL
    {
      this.machineId := machineId;
      lastTimestamp := -1;
      sequence := 0;
    }

    /** The constructor's range check: a machine id outside [0, 1023] is refused. */
    static method Create(machineId: int) returns (r: Result<SnowflakeIdGenerator, IdError>)
      ensures r.Err? <==> !ValidMachineId(machineId)
      ensures r.Err? ==> r.error == MachineIdOutOfRange
      ensures r.Ok? ==> fresh(r.value) && r.value.Valid() && r.value.machineId == machineId
      ensures r.Ok? ==> GenState(r.value.lastTimestamp, r.value.sequence) == INITIAL
    {
      if machineId > MAX_MACHINE_ID || machineId < 0 {
        return Err(MachineIdOutOfRange);
      }
      var g := new SnowflakeIdGenerator(machineId);
      return Ok(g);
    }

    method NextId(clock: seq<int>) returns (r: Result<int, IdError>)
      requires Valid() && ClockReady(GenState(lastTimestamp, sequence), clock)
      modifies this
      ensures Valid()
      ensures match NextIdResult(old(GenState(lastTimestamp, sequence)), machineId, clock)
        case Err(e) => r == Err(e) && lastTimestamp == old(lastTimestamp) && sequence == old(sequence)
        case Ok(p) => r == Ok(p.1) && GenState(lastTimestamp, sequence) == p.0
    {
      ghost var s := GenState(lastTimestamp, sequence);
      NextIdPromises(s, machineId, clock);
      var currentTimestamp := clock[0];
      if currentTimestamp < lastTimestamp {
        return Err(ClockMovedBackwards);
      }
      if currentTimestamp == lastTimestamp {
        sequence := (sequence + 1) % (MAX_SEQUENCE + 1);
        if sequence == 0 {
          currentTimestamp := WaitNextMillis(clock);
        }
      } else {
        sequence := 0;
      }
      lastTimestamp := currentTimestamp;
      return Ok(Compose(currentTimestamp, machineId, sequence));
    }

    /** Polls the clock until it reads later than lastTimestamp. */
    method WaitNextMillis(clock: seq<int>) returns (ts: int)
      requires |clock| > 0 && clock[0] <= lastTimestamp
      requires ClockPasses(clock, 1, lastTimestamp)
      ensures ts == clock[FirstAfter(clock, 1, lastTimestamp)] && ts > lastTimestamp
    {
      var i := 0;
      ts := clock[0];
      while ts <= lastTimestamp
        invariant 0 <= i < FirstAfter(clock, 1, lastTimestamp) || i == FirstAfter(clock, 1, lastTimestamp)
        invariant ts == clock[i]
        invariant i < FirstAfter(clock, 1, lastTimestamp) ==> ts <= lastTimestamp
        decreases FirstAfter(clock, 1, lastTimestamp) - i
      {
        i := i + 1;
        ts := clock[i];
      }
    }
  }
}
