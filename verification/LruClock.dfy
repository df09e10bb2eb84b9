/**
 * The 24-bit LRU clock: an idle time is stored as an absolute clock value that may wrap (objectSetLRUOrLFU in
 * object.c) and read back as a difference (estimateObjectIdleTime in evict.c).
 */
module LruClock {
  import opened Base
  import opened Histogram

  const LRU_CLOCK_RESOLUTION: nat := 1000

  /** The number of recorded accesses is kept in eight bits. */
  const ACCESS_COUNTS: nat := 0x100

  function EstimateIdleTime(clock: nat, lru: nat): (ms: nat)
    requires lru <= LRU_CLOCK_MAX
  {
    if clock >= lru then (clock - lru) * LRU_CLOCK_RESOLUTION
    else (clock + (LRU_CLOCK_MAX - lru)) * LRU_CLOCK_RESOLUTION
  }

  /** The idle time is none at the moment of access and grows by a second with the clock; a wrap of the clock adds none. */
  lemma {:induction false} IdleTicks(clock: nat, lru: nat)
    requires lru <= LRU_CLOCK_MAX && clock < LRU_CLOCK_MAX
    ensures EstimateIdleTime(lru, lru) == 0
    ensures clock + 1 != lru ==> EstimateIdleTime(clock + 1, lru) == EstimateIdleTime(clock, lru) + 1000
    ensures lru > 0 ==> EstimateIdleTime(0, lru) == EstimateIdleTime(LRU_CLOCK_MAX, lru)
  {
  }

  /** The stored clock value; the field keeps 24 bits of whatever the subtraction gives. */
  function StoredLru(clock: nat, idle: nat): (lru: nat)
    ensures lru <= LRU_CLOCK_MAX
  {
    var lruAbs := clock - idle;
    (if lruAbs < 0 then lruAbs + LRU_CLOCK_MAX else lruAbs) % (LRU_CLOCK_MAX + 1)
  }

  /** The place of the array that initOrUpdateObjectt writes to. */
  function RecordIndex(n: nat): nat {
    if n == 0 then 0 else if n <= HISTORY_SIZE then n else HISTORY_SIZE - 1
  }

  /** The eviction fields of an object: its clock value, its recorded access times, and how many there have been. */
  class LoadedObject {
    var lru: nat
    var times: seq<nat>
    var n: nat

    constructor (lru: nat, times: seq<nat>, n: nat)
      requires |times| == HISTORY_SIZE
      ensures this.lru == lru && this.times == times && this.n == n
    {
      this.lru, this.times, this.n := lru, times, n;
    }

    /**
     * initOrUpdateObjectt: unlike the update made on an access, it goes on counting when it shifts. At a count of four
     * it writes past its array, and nothing can be promised of what follows; inside says that it did not.
     */
    method Record(now: nat) returns (inside: bool)
      requires |times| == HISTORY_SIZE && n < ACCESS_COUNTS
      modifies `times, `n
      ensures inside <==> RecordIndex(old(n)) < |old(times)|
      ensures inside ==> n == (old(n) + 1) % ACCESS_COUNTS
      ensures inside ==> times == if old(n) < HISTORY_SIZE then old(times)[old(n) := now] else old(times)[1..] + [now]
    {
      inside := true;
      if n == 0 {
        n := 1;
        times := times[0 := now];
      } else if n <= HISTORY_SIZE {
        if n == |times| {
          return false;
        }
        times := times[n := now];
        n := (n + 1) % ACCESS_COUNTS;
      } else {
        times := times[1..] + [now];
        n := (n + 1) % ACCESS_COUNTS;
      }
    }

    /** The branch for an idle time given in seconds, which also records an access. */
    method SetLru(lruIdle: int, clock: nat, multiplier: nat) returns (set_: bool, inside: bool)
      requires |times| == HISTORY_SIZE && n < ACCESS_COUNTS
      modifies this
      ensures set_ <==> lruIdle >= 0
      ensures inside <==> !set_ || RecordIndex(old(n)) < |old(times)|
      ensures set_ ==>
        var idle := lruIdle * multiplier / LRU_CLOCK_RESOLUTION;
        && lru == StoredLru(clock, idle)
        && (inside ==>
          && n == (old(n) + 1) % ACCESS_COUNTS
          && times == if old(n) < HISTORY_SIZE then old(times)[old(n) := idle] else old(times)[1..] + [idle])
      ensures !set_ ==> lru == old(lru) && times == old(times) && n == old(n)
    {
      if lruIdle < 0 {
        return false, true;
      }
      var idle := lruIdle * multiplier / LRU_CLOCK_RESOLUTION;
      var lruAbs := clock - idle;
      if lruAbs < 0 {
        lruAbs := lruAbs + LRU_CLOCK_MAX;
      }
      lru := lruAbs % (LRU_CLOCK_MAX + 1);
      inside := Record(idle);
      set_ := true;
    }
  }

  // ------------------------------------------------------------------ recording inside the array

  /** An object is either accessed or put under a key: by SET, by RENAME or MOVE, or on loading. */
  datatype Use = Accessed | PutUnderKey

  /** The count of recorded accesses after a run of uses of a new object, if all of them wrote inside the array. */
  function CountAfter(run: seq<Use>): (n: Option<nat>) {
    if run == [] then Some(0)
    else match CountAfter(run[..|run| - 1])
      case None => None
      case Some(n) =>
        if run[|run| - 1].Accessed? then Some(if n < HISTORY_SIZE then n + 1 else n)
        else if RecordIndex(n) < HISTORY_SIZE then Some((n + 1) % ACCESS_COUNTS)
        else None
  }

  /**
   * A run of uses stays inside the array exactly when the object is not put under a key again once it has been used
   * four times; the count is then the number of uses, but never more than four.
   */
  lemma {:induction false} InsideIffNotPutAgain(run: seq<Use>)
    ensures CountAfter(run).Some? <==> forall i :: HISTORY_SIZE <= i < |run| ==> run[i].Accessed?
    ensures CountAfter(run).Some? ==> CountAfter(run).value == if |run| < HISTORY_SIZE then |run| else HISTORY_SIZE
  {
    hide CountAfter;
    CountStep(run);
    if run != [] {
      var init, last := run[..|run| - 1], run[|run| - 1];
      InsideIffNotPutAgain(init);
      assert run == init + [last];
    }
  }

  lemma {:induction false} CountStep(run: seq<Use>)
    ensures run == [] ==> CountAfter(run) == Some(0)
    ensures run != [] ==>
      var init, last := CountAfter(run[..|run| - 1]), run[|run| - 1];
      && (CountAfter(run).Some? <==> init.Some? && (last.Accessed? || init.value != HISTORY_SIZE))
      && (CountAfter(run).Some? && init.value < HISTORY_SIZE ==> CountAfter(run).value == init.value + 1)
      && (CountAfter(run).Some? && init.value == HISTORY_SIZE ==> CountAfter(run).value == HISTORY_SIZE)
  {
  }

  /**
   * The count at which the code writes past its array, and how an object comes to it: by four accesses and a RENAME,
   * or by one SET, two reads and a RENAME, which looks the key up before it stores the object again.
   */
  lemma {:induction false} FourUsesReachTheEnd(n: nat)
    ensures RecordIndex(n) >= HISTORY_SIZE <==> n == HISTORY_SIZE
    ensures CountAfter([PutUnderKey, Accessed, Accessed, Accessed]) == Some(HISTORY_SIZE)
    ensures CountAfter([PutUnderKey, Accessed, Accessed, Accessed, PutUnderKey]) == None
    ensures CountAfter([Accessed, Accessed, Accessed, Accessed, PutUnderKey]) == None
  {
    InsideIffNotPutAgain([PutUnderKey, Accessed, Accessed, Accessed]);
    InsideIffNotPutAgain([PutUnderKey, Accessed, Accessed, Accessed, PutUnderKey]);
    InsideIffNotPutAgain([Accessed, Accessed, Accessed, Accessed, PutUnderKey]);
  }

  /** An idle time reads back at the same clock exactly when it is below the clock's range or within reach of it. */
  lemma IdleTimeSurvivesStoring(clock: nat, idle: nat)
    requires clock <= LRU_CLOCK_MAX
    ensures EstimateIdleTime(clock, StoredLru(clock, idle)) == idle * LRU_CLOCK_RESOLUTION <==>
            idle < LRU_CLOCK_MAX || idle <= clock
  {
    var lruAbs := clock - idle;
    if lruAbs < 0 && lruAbs + LRU_CLOCK_MAX < 0 {
      assert idle > LRU_CLOCK_MAX;
    }
  }

  /**
   * What a dump carries from one server to another: the idle seconds seen at saving time are seen again after loading,
   * whatever the two clocks, except that the single largest value needs a loading clock at its maximum.
   */
  lemma IdleTimeSurvivesDump(saveClock: nat, lru: nat, loadClock: nat)
    requires saveClock <= LRU_CLOCK_MAX && lru <= LRU_CLOCK_MAX && loadClock <= LRU_CLOCK_MAX
    ensures var seconds := EstimateIdleTime(saveClock, lru) / 1000;
            EstimateIdleTime(loadClock, StoredLru(loadClock, seconds)) == EstimateIdleTime(saveClock, lru) <==>
            !(saveClock == LRU_CLOCK_MAX && lru == 0) || loadClock == LRU_CLOCK_MAX
  {
    var seconds := EstimateIdleTime(saveClock, lru) / 1000;
    assert EstimateIdleTime(saveClock, lru) == seconds * LRU_CLOCK_RESOLUTION;
    IdleTimeSurvivesStoring(loadClock, seconds);
  }

  /**
   * Loading also records the idle time itself as if it were a time of access. The age the histogram then sees is the
   * real idle time only by coincidence.
   */
  lemma LoadedAccessTimeIsTheIdleTime(clock: nat, idle: nat)
    requires clock <= LRU_CLOCK_MAX && idle < U64
    ensures Age(clock, idle) == idle <==> clock == 2 * idle || clock + U64 == 2 * idle
  {
    assert (clock - idle) % U64 == if idle <= clock then clock - idle else clock - idle + U64;
  }
}
