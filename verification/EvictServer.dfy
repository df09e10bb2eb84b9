/** The server state performEvictions works on, and its loops. */
module EvictServer {
  import opened Base
  import opened PoolSpec
  import opened Pool
  import opened Histogram
  import opened RandomScan
  import opened Evict
  import opened EvictSpec
  import opened EvictLaws

  datatype EvictResult = EvictOk | EvictRunning | EvictFail

  class Server {
    const pool: EvictionPool
    const policy: Policy
    const maxmemory: nat
    /** Where samples, memory readings and times come from. */
    const env: Env
    var dbs: seq<Db>
    /** Rounds of sampling made, and the latest memory reading, as the outside world numbers them. */
    var rounds: nat
    var reading: nat
    var nextDb: nat
    var timerRunning: bool
    ghost var timers: nat

    ghost function S(): Search
      requires pool.Valid()
      reads this, pool, pool.slots, pool.buffers, pool.heap
    {
      Search(dbs, pool.Contents(), rounds, nextDb)
    }

    ghost predicate Valid()
      reads this, pool, pool.slots, pool.buffers, pool.heap
    {
      pool.Valid() && Sound(S()) && env.Draws(policy) && timers == if timerRunning then 1 else 0
    }

    constructor (policy: Policy, maxmemory: nat, env: Env, dbs: seq<Db>)
      requires AllWellFormed(dbs) && 0 < |dbs| < U32 && env.Draws(policy)
      ensures Valid() && fresh(pool) && S() == Search(dbs, [], 0, 0)
      ensures this.policy == policy && this.maxmemory == maxmemory && this.env == env && !timerRunning
    {
      pool := new EvictionPool();
      this.policy, this.maxmemory, this.env, this.dbs := policy, maxmemory, env, dbs;
      rounds, reading, nextDb, timerRunning, timers := 0, 0, 0, false, 0;
    }

    // ---------------------------------------------------------------- filling the pool

    method PopulateIdle(i: nat, keys: seq<Bytes>, m: Moment)
      requires pool.Valid() && i < |dbs| && !policy.AllkeysLruHistogram?
      modifies pool`heap, pool`count, pool.slots, pool.buffers
      ensures pool.Valid()
      ensures pool.Contents() == OfferAll(old(pool.Contents()), OffersOf(policy, env, m, i, dbs[i], keys))
    {
      hide Offered, Owned, Sorted, IdleRank, EvictionPool.Valid, EvictionPool.Contents;
      ghost var cs := OffersOf(policy, env, m, i, dbs[i], keys);
      NothingOfferedYet(pool.Contents(), cs);
      for j := 0 to |keys|
        invariant pool.Valid() && pool.Contents() == OfferAll(old(pool.Contents()), cs[..j])
      {
        var idle := IdleRank(policy, m, ObjectAt(dbs[i], keys[j]), ExpireAt(dbs[i], keys[j]));
        OfferNext(old(pool.Contents()), cs, j);
        pool.Insert(idle as real, i, keys[j]);
      }
      assert cs[..|keys|] == cs;
    }

    method PopulateHistogram(i: nat, keys: seq<Bytes>, m: Moment)
      requires pool.Valid() && i < |dbs| && policy.AllkeysLruHistogram?
      modifies pool`heap, pool`count, pool.slots, pool.buffers
      ensures pool.Valid()
      ensures pool.Contents() == OfferAll(old(pool.Contents()), OffersOf(policy, env, m, i, dbs[i], keys))
      ensures env.Roots() && Recent(DrawnAges(m, dbs[i], keys)) && (forall k :: k in keys ==> k in dbs[i].dict) ==>
        exists mean, sd :: OffersByDeviation(OffersOf(policy, env, m, i, dbs[i], keys), m, dbs[i], keys, mean, sd)
    {
      hide Recent, RankOf, OffersByDeviation, DrawnAges;
      hide StatsOf, Boundaries, Covered, AllAges, EvictionPool.Valid, EvictionPool.Contents, OfferAll, OffersOf;
      var histories := Histories(dbs[i], keys);
      var st := CalculateStatistics(histories, m.clock);
      var sd := env.root(Variance(st));
      var w := new real[NUM_WINDOWS];
      DefineWindowBoundaries(w, st, sd);
      forall j | 0 <= j < |keys|
        ensures Covered(Ages(m.clock, ObjectAt(dbs[i], keys[j]).history), w[..])
      {
        SamplesAreCovered(m.clock, histories, sd, j);
      }
      OfferScores(i, keys, m, w);
      if env.Roots() && Recent(DrawnAges(m, dbs[i], keys)) && (forall k :: k in keys ==> k in dbs[i].dict) {
        OffersAreByDeviation(env, m, i, dbs[i], keys);
      }
    }

    /** Scores every key drawn under the given windows and offers it. */
    method OfferScores(i: nat, keys: seq<Bytes>, m: Moment, w: array<real>)
      requires pool.Valid() && i < |dbs| && policy.AllkeysLruHistogram?
      requires w[..] == Windows(env, m, dbs[i], keys)
      requires forall j :: 0 <= j < |keys| ==> Covered(Ages(m.clock, ObjectAt(dbs[i], keys[j]).history), w[..])
      modifies pool`heap, pool`count, pool.slots, pool.buffers
      ensures pool.Valid()
      ensures pool.Contents() == OfferAll(old(pool.Contents()), OffersOf(policy, env, m, i, dbs[i], keys))
    {
      hide Offered, Score, Windows, Covered, EvictionPool.Valid, EvictionPool.Contents, OffersOf, OfferAll;
      ghost var cs := OffersOf(policy, env, m, i, dbs[i], keys);
      NothingOfferedYet(pool.Contents(), cs);
      for j := 0 to |keys|
        invariant pool.Valid() && w[..] == Windows(env, m, dbs[i], keys)
        invariant pool.Contents() == OfferAll(old(pool.Contents()), cs[..j])
      {
        OfferNext(old(pool.Contents()), cs, j);
        OfferScore(i, keys, j, m, w);
      }
      assert cs[..|keys|] == cs;
    }

    method OfferScore(i: nat, keys: seq<Bytes>, j: nat, m: Moment, w: array<real>)
      requires pool.Valid() && i < |dbs| && policy.AllkeysLruHistogram? && j < |keys|
      requires w[..] == Windows(env, m, dbs[i], keys)
      requires Covered(Ages(m.clock, ObjectAt(dbs[i], keys[j]).history), w[..])
      modifies pool`heap, pool`count, pool.slots, pool.buffers
      ensures pool.Valid()
      ensures pool.Contents() == Offered(old(pool.Contents()), OffersOf(policy, env, m, i, dbs[i], keys)[j])
    {
      hide Offered, Score, Windows, Covered, EvictionPool.Valid, EvictionPool.Contents;
      var score := EstimateObjectEvictionScore(ObjectAt(dbs[i], keys[j]).history, m.clock, w);
      pool.Insert(score, i, keys[j]);
    }

    /** Draws keys from every database that has some to evict and offers them all. */
    method PopulateAll(m: Moment) returns (total: nat)
      requires pool.Valid()
      modifies this`rounds, pool`heap, pool`count, pool.slots, pool.buffers
      ensures pool.Valid() && rounds == old(rounds) + 1 && total == TotalEvictable(policy, dbs)
      ensures pool.Contents() == OfferAll(old(pool.Contents()), Round(policy, env, m, dbs, old(rounds)))
    {
      hide Evictable, TotalEvictable, OffersOf, OfferAll, RoundUpTo, EvictionPool.Valid, EvictionPool.Contents;
      total := 0;
      OfferNothing(pool.Contents());
      NothingYet(policy, env, m, dbs, rounds);
      var i := 0;
      while i < |dbs|
        invariant 0 <= i <= |dbs| && pool.Valid() && rounds == old(rounds)
        invariant pool.Contents() == OfferAll(old(pool.Contents()), RoundUpTo(policy, env, m, dbs, rounds, i))
        invariant total == TotalEvictable(policy, dbs[..i])
      {
        NextTotal(policy, dbs, i);
        NextOffers(policy, env, m, dbs, rounds, i, old(pool.Contents()));
        var size := |Evictable(policy, dbs[i])|;
        if size != 0 {
          var keys := env.sample(rounds, i, dbs[i]);
          if policy.AllkeysLruHistogram? {
            PopulateHistogram(i, keys, m);
          } else {
            PopulateIdle(i, keys, m);
          }
          total := total + size;
        }
        i := i + 1;
      }
      assert dbs[..i] == dbs;
      rounds := rounds + 1;
    }

    // ---------------------------------------------------------------- choosing a victim

    /** Looks at the pool from best to worst, emptying every slot it looks at, and stops at the first live one. */
    method ScanPool() returns (v: Option<Victim>)
      requires pool.Valid() && AllInDb(dbs, pool.Contents())
      modifies pool`heap, pool`count, pool.slots
      ensures pool.Valid()
      ensures match BestLive(policy, dbs, old(pool.Contents()))
              case None => v == None && pool.Contents() == []
              case Some(n) =>
                var c := old(pool.Contents())[n];
                v == Some((c.dbid, c.key)) && pool.Contents() == old(pool.Contents())[..n]
    {
      hide Evictable, Owned, BestLive;
      ghost var c0 := pool.Contents();
      ghost var best := BestLive(policy, dbs, c0);
      NoneLive(policy, dbs);
      v := None;
      var k := EVPOOL_SIZE;
      while k > 0
        invariant 0 <= k <= EVPOOL_SIZE && pool.Valid() && pool.count <= k
        invariant pool.count <= |c0| && pool.Contents() == c0[..pool.count]
        invariant best == BestLive(policy, dbs, c0[..pool.count])
      {
        k := k - 1;
        ghost var row := RowsOf(pool.slots[..])[k];
        assert row == RowOf(pool.slots[k]);
        if pool.slots[k].key == null {
          continue;
        }
        assert row.Taken? && k + 1 == pool.count && pool.Contents()[k] == row.c == c0[k];
        BestLiveStep(policy, dbs, c0, k);
        var dbid, key := pool.slots[k].dbid, pool.slots[k].key.text;
        var found := key in Evictable(policy, dbs[dbid]);
        pool.TakeLast(k);
        if found {
          return Some((dbid, key));
        }
      }
      assert c0[..0] == [];
    }

    /** Fills the pool and searches it once. */
    method FillAndScan(m: Moment) returns (v: Option<Victim>, total: nat)
      requires Valid()
      modifies this`rounds, pool`heap, pool`count, pool.slots, pool.buffers
      ensures Valid() && total == TotalEvictable(policy, dbs)
      ensures total == 0 ==> v == None && S() == old(S()).(rounds := old(rounds) + 1)
      ensures total != 0 ==> (v, S()) == OneRound(policy, env, m, old(S()))
    {
      hide Evictable, TotalEvictable, OfferAll, RoundUpTo, EvictionPool.Valid, EvictionPool.Contents, BestLive, Env.Draws;
      RoundKeepsPool(policy, env, m, S());
      RoundKeepsOrder(policy, env, m, S());
      RoundNotEmpty(policy, env, m, dbs, rounds);
      OfferNothing(pool.Contents());
      total := PopulateAll(m);
      if total == 0 {
        return None, 0;
      }
      v := ScanPool();
    }

    /** The loop that fills and searches the pool until it has a victim or nothing was there to offer. */
    method PickVictim(m: Moment) returns (v: Option<Victim>)
      requires Valid()
      modifies this`rounds, pool`heap, pool`count, pool.slots, pool.buffers
      ensures Valid() && (v, S()) == PoolPick(policy, env, m, old(S()))
      ensures v.None? <==> TotalEvictable(policy, dbs) == 0
    {
      hide Evictable, TotalEvictable, OneRound, Top, OfferAll, Round, EvictionPool.Valid, EvictionPool.Contents, Env.Draws, Sound;
      ghost var n := 0;
      ghost var s1 := S();
      PickFinds(policy, env, m, S());
      v := None;
      while v.None?
        invariant Valid() && n <= 2 && dbs == old(dbs)
        invariant n == 0 ==> S() == old(S()) && v == None
        invariant n > 0 ==> TotalEvictable(policy, dbs) > 0
        invariant n == 1 ==> (v, S()) == OneRound(policy, env, m, old(S()))
        invariant n == 2 ==> (v, S()) == PoolPick(policy, env, m, old(S())) && v.Some?
        decreases 2 - n
      {
        var total;
        v, total := FillAndScan(m);
        if total == 0 {
          break;
        }
        n := n + 1;
      }
    }

    /** The random policies visit the databases in turn and take any key of the first one that has some. */
    method PickRandom() returns (v: Option<Victim>)
      requires Valid()
      modifies this`nextDb, this`rounds
      ensures pool.Valid() && (v, S()) == RandomPick(policy, env, old(S()), 0)
    {
      hide Evictable, Env.Draws, EvictionPool.Valid, EvictionPool.Contents, Sound, RandomPick;
      var i := 0;
      while i < |dbs|
        invariant 0 <= i <= |dbs| && pool.Valid()
        invariant RandomPick(policy, env, old(S()), 0) == RandomPick(policy, env, S(), i)
      {
        RandomPickStep(policy, env, S(), i);
        nextDb := (nextDb + 1) % U32;
        var j := nextDb % |dbs|;
        if |Evictable(policy, dbs[j])| != 0 {
          var key := env.pick(rounds, j, dbs[j]);
          rounds := rounds + 1;
          return Some((j, key));
        }
        i := i + 1;
      }
      RandomPickStep(policy, env, S(), i);
      v := None;
    }

    // ---------------------------------------------------------------- memory, deletion, timer

    /** A new reading of used memory. */
    method UsedMemory() returns (n: nat)
      modifies this`reading
      ensures reading == old(reading) + 1 && n == env.used(reading)
    {
      reading := reading + 1;
      n := env.used(reading);
    }

    /** Used memory without the output buffers, against the limit; the amount to free when it is exceeded. */
    method GetMaxmemoryState() returns (ok: bool, tofree: nat)
      ensures ok <==> !Over(env, maxmemory, reading)
      ensures !ok ==> tofree == Excess(env, maxmemory, reading)
      ensures ok <==> maxmemory == 0 || env.used(reading) <= maxmemory + env.overhead(reading)
      ensures !ok ==> tofree > 0 && env.used(reading) == maxmemory + env.overhead(reading) + tofree
    {
      tofree := 0;
      var used, overhead := env.used(reading), env.overhead(reading);
      if maxmemory == 0 || used <= maxmemory {
        return true, 0;
      }
      var memUsed := if used > overhead then used - overhead else 0;
      if memUsed <= maxmemory {
        return true, 0;
      }
      ok, tofree := false, memUsed - maxmemory;
    }

    method StartEvictionTimeProc()
      requires timers == if timerRunning then 1 else 0
      modifies this`timerRunning, this`timers
      ensures timerRunning && timers == 1
    {
      if !timerRunning {
        timerRunning := true;
        timers := timers + 1;
      }
    }

    /** With nothing left to evict, waits for objects still being freed in the background. */
    method WaitForLazyFree(patience: nat) returns (seen: bool)
      modifies this`reading
      ensures seen <==> WaitSucceeds(env, maxmemory, old(reading), patience)
      ensures seen ==> !Over(env, maxmemory, reading)
      ensures seen <==> exists i: nat :: i < patience && StillPending(env, old(reading), i) &&
                                         WithinAt(env, maxmemory, old(reading) + i)
    {
      WaitInPolls(env, maxmemory, reading, patience);
      var polls := patience;
      while polls > 0 && env.pending(reading)
        invariant 0 <= polls <= patience
        invariant WaitSucceeds(env, maxmemory, old(reading), patience) == WaitSucceeds(env, maxmemory, reading, polls)
        decreases polls
      {
        var ok, _ := GetMaxmemoryState();
        if ok {
          return true;
        }
        reading := reading + 1;
        polls := polls - 1;
      }
      return false;
    }

    // ---------------------------------------------------------------- the eviction cycle

    /** One pass: choose a victim, delete it and measure what that freed, or find that there is none. */
    method EvictOne(m: Moment) returns (v: Option<Victim>, delta: int)
      requires Valid() && !policy.NoEviction?
      modifies this`dbs, this`reading, this`nextDb, this`rounds
      modifies pool`heap, pool`count, pool.slots, pool.buffers
      ensures Valid()
      ensures var (w, s1) := NextVictim(policy, env, m, old(S()));
        v == w && S() == if w.None? then s1 else s1.(dbs := Delete(s1.dbs, w.value))
      ensures v.Some? ==>
        && v.value.0 < |old(dbs)| && v.value.1 in Evictable(policy, old(dbs)[v.value.0])
        && dbs == old(dbs)[v.value.0 := Removed(old(dbs)[v.value.0], v.value.1)]
        && reading == old(reading) + 3
        && delta == env.used(old(reading) + 1) as int - env.used(old(reading) + 2)
      ensures v.None? ==> dbs == old(dbs) && reading == old(reading)
    {
      hide Evictable, PoolPick, RandomPick, EvictionPool.Valid, EvictionPool.Contents, Env.Draws, Removed, ScanComplete;
      hide Sound, TotalEvictable;
      NextVictimFinds(policy, env, m, S());
      delta := 0;
      if policy.UsesPool() {
        v := PickVictim(m);
      } else {
        v := PickRandom();
      }
      if v.None? {
        return;
      }
      DeleteKeepsSound(policy, S(), v.value);
      var before := UsedMemory();
      dbs := Delete(dbs, v.value);
      var after := UsedMemory();
      delta := before as int - after;
      reading := reading + 1;
    }

    /** What a cycle that starts at the next reading is given. */
    ghost function Given(m: Moment, lazyfree: bool, patience: nat): Cycle
      requires pool.Valid()
      reads this, pool, pool.slots, pool.buffers, pool.heap
    {
      Cycle(policy, env, maxmemory, m, lazyfree, patience, S(), reading + 1)
    }

    /** One pass of the loop: evict a key, and after every sixteenth see whether to stop. */
    method EvictionPass(m: Moment, ghost c: Cycle, lazyfree: bool, k: nat)
      returns (stop: bool, ghost how: Exit, fail: bool, delta: int)
      requires Valid() && !policy.NoEviction? && c.p == policy && c.env == env && c.maxmemory == maxmemory
      requires c.m == m && c.lazyfree == lazyfree && c.Reached(k, S()) && reading == Seen(c.t0, k)
      requires FreedSum(env, c.t0, k) < Excess(env, maxmemory, c.t0)
      modifies this`dbs, this`reading, this`nextDb, this`rounds, this`timerRunning, this`timers
      modifies pool`heap, pool`count, pool.slots, pool.buffers
      ensures Valid() && (timerRunning <==> old(timerRunning) || (stop && !fail && how.TimeUp?))
      ensures fail ==> c.RunsDry(k, S()) && reading == Seen(c.t0, k)
      ensures !fail ==>
        && reading == Seen(c.t0, k + 1) && FreedSum(env, c.t0, k + 1) == FreedSum(env, c.t0, k) + delta
        && TotalEvictable(policy, dbs) < TotalEvictable(policy, old(dbs))
        && if stop then c.LoopEnds(k + 1, how, S()) && (how.Enough? || how.TimeUp?) else c.Reached(k + 1, S())
    {
      hide NextVictim, Over, EvictionPool.Valid, EvictionPool.Contents, Sound, Env.Draws, Evictable, FreedSum;
      hide TotalEvictable, SeesEnough, RunsLate, Cycle.Reached, Cycle.LoopEnds, Cycle.RunsDry, Excess, Removed;
      ghost var s0 := S();
      var v;
      stop, how, fail := false, Freed, false;
      v, delta := EvictOne(m);
      if v.None? {
        fail := true;
        NothingFound(c, k, s0);
        return;
      }
      OnePass(c, k, s0, v.value);
      if (k + 1) % 16 == 0 {
        stop, how := CheckPoint(lazyfree, c.t0, k + 1);
      }
    }

    /** The loop, up to the point where it stops; it fails when it finds nothing to delete. */
    method EvictionLoop(tofree: nat, m: Moment, ghost c: Cycle, lazyfree: bool)
      returns (ghost how: Exit, keysFreed: nat, fail: bool)
      requires Valid() && !policy.NoEviction? && tofree == Excess(env, maxmemory, reading)
      requires c == Given(m, lazyfree, c.patience).(t0 := reading)
      modifies this`dbs, this`reading, this`nextDb, this`rounds, this`timerRunning, this`timers
      modifies pool`heap, pool`count, pool.slots, pool.buffers
      ensures Valid() && reading == Seen(c.t0, keysFreed)
      ensures if fail then c.RunsDry(keysFreed, S()) else c.LoopEnds(keysFreed, how, S())
      ensures !fail ==> how.Freed? || how.Enough? || how.TimeUp?
      ensures timerRunning <==> old(timerRunning) || (!fail && how.TimeUp?)
    {
      hide NextVictim, Over, EvictionPool.Valid, EvictionPool.Contents, Sound, Env.Draws, Evictable, FreedSum;
      hide TotalEvictable, SeesEnough, RunsLate, Cycle.Reached, Cycle.LoopEnds, Cycle.RunsDry, Excess;
      keysFreed, fail, how := 0, false, Freed;
      var memFreed := 0;
      NotStarted(c);
      while memFreed < tofree
        invariant Valid() && c.Reached(keysFreed, S()) && reading == Seen(c.t0, keysFreed)
        invariant timerRunning == old(timerRunning) && memFreed == FreedSum(env, c.t0, keysFreed)
        decreases TotalEvictable(policy, dbs)
      {
        var stop, delta;
        stop, how, fail, delta := EvictionPass(m, c, lazyfree, keysFreed);
        if fail {
          return;
        }
        memFreed := memFreed + delta;
        keysFreed := keysFreed + 1;
        if stop {
          return;
        }
      }
      how := Freed;
      LeavesByGuard(c, keysFreed, S());
    }

    /** After every sixteenth deletion: is memory within the limit already, or the time up? */
    method CheckPoint(lazyfree: bool, ghost t0: nat, k: nat) returns (stop: bool, ghost how: Exit)
      requires timers == if timerRunning then 1 else 0
      requires k > 0 && k % 16 == 0 && reading == Seen(t0, k)
      modifies this`timerRunning, this`timers
      ensures stop <==> SeesEnough(env, maxmemory, lazyfree, t0, k) || RunsLate(env, maxmemory, lazyfree, t0, k)
      ensures how == if SeesEnough(env, maxmemory, lazyfree, t0, k) then Enough else TimeUp
      ensures timerRunning == (old(timerRunning) || (stop && how.TimeUp?)) && timers == if timerRunning then 1 else 0
    {
      stop, how := false, TimeUp;
      if lazyfree {
        var enough, _ := GetMaxmemoryState();
        if enough {
          return true, Enough;
        }
      }
      if env.late(reading) {
        StartEvictionTimeProc();
        stop := true;
      }
    }

    /**
     * Runs one eviction cycle. How it ended is reported for the contract, which says that this is the one way in which
     * a cycle with these readings and these draws can end.
     */
    method PerformEvictions(safe: bool, m: Moment, lazyfree: bool, patience: nat)
      returns (result: EvictResult, ghost how: Exit, keysFreed: nat)
      requires Valid()
      modifies this`dbs, this`reading, this`nextDb, this`rounds, this`timerRunning, this`timers
      modifies pool`heap, pool`count, pool.slots, pool.buffers
      ensures Valid() && old(Given(m, lazyfree, patience)).Ends(safe, keysFreed, how, S())
      ensures result == EvictFail <==> how.Forbidden? || how.NothingLeft?
      ensures result == EvictRunning <==> how.TimeUp? || (old(timerRunning) && (how.Freed? || how.Enough?))
      ensures timerRunning <==> old(timerRunning) || how.TimeUp?
      ensures AllRemain(policy, dbs, old(dbs))
      ensures TotalKeys(dbs) + keysFreed == TotalKeys(old(dbs))
      ensures how.Freed? && Quiet(env, old(reading) + 1, keysFreed) ==> !Over(env, maxmemory, reading)
      ensures how.Enough? || how.WithinLimit? || how.SeenFreed? ==> !Over(env, maxmemory, reading)
      ensures how.NothingLeft? ==> NothingToFind(old(Given(m, lazyfree, patience)), keysFreed, S())
      ensures maxmemory == 0 ==> result == EvictOk && keysFreed == 0 && dbs == old(dbs)
      ensures keysFreed > 0 || result == EvictFail ==>
        safe && maxmemory > 0 && env.used(old(reading) + 1) > maxmemory + env.overhead(old(reading) + 1)
      ensures safe && maxmemory > 0 && env.used(old(reading) + 1) > maxmemory + env.overhead(old(reading) + 1) ==>
        keysFreed > 0 || how.Forbidden? || how.NothingLeft? || how.SeenFreed?
      ensures how.Freed? && Quiet(env, old(reading) + 1, keysFreed) ==>
        env.used(reading) <= maxmemory + env.overhead(reading)
      ensures how.Enough? || how.TimeUp? ==> keysFreed > 0 && keysFreed % 16 == 0
      ensures forall j: nat :: 0 < j < keysFreed && j % 16 == 0 ==>
        MayGoOn(env, maxmemory, lazyfree, Seen(old(reading) + 1, j))
    {
      hide EvictionPool.Valid, EvictionPool.Contents, Sound, Env.Draws, Evictable, Passes, NextVictim, TotalEvictable, TotalKeys;
      hide AllRemain, Quiet, Cycle.LoopEnds, Cycle.RunsDry, WaitSucceeds, Over, Excess, NothingToFind, MayGoOn;
      ghost var c := Given(m, lazyfree, patience);
      ghost var s0 := S();
      keysFreed := 0;
      if !safe {
        CycleKeeps(c, safe, 0, Skipped, S());
        CycleInNumbers(c, safe, 0, Skipped, S());
        return EvictOk, Skipped, 0;
      }
      reading := reading + 1;
      var ok, tofree := GetMaxmemoryState();
      if ok {
        CycleKeeps(c, safe, 0, WithinLimit, S());
        CycleInNumbers(c, safe, 0, WithinLimit, S());
        return EvictOk, WithinLimit, 0;
      }
      if policy.NoEviction? {
        CycleKeeps(c, safe, 0, Forbidden, S());
        CycleInNumbers(c, safe, 0, Forbidden, S());
        return EvictFail, Forbidden, 0;
      }
      var fail;
      how, keysFreed, fail := EvictionLoop(tofree, m, c, lazyfree);
      if fail {
        var seen := WaitForLazyFree(patience);
        how := if seen then SeenFreed else NothingLeft;
        AfterTheWait(c, keysFreed, S(), seen);
        result := if seen then EvictOk else EvictFail;
      } else {
        result := if timerRunning then EvictRunning else EvictOk;
      }
      CycleKeeps(c, safe, keysFreed, how, S());
      CycleInNumbers(c, safe, keysFreed, how, S());
    }

    /** The timer callback: the one live timer either stays, because eviction is still running, or goes. */
    method EvictionTimeProc(safe: bool, m: Moment, lazyfree: bool, patience: nat) returns (again: bool)
      requires Valid() && timerRunning
      modifies this`dbs, this`reading, this`nextDb, this`rounds, this`timerRunning, this`timers
      modifies pool`heap, pool`count, pool.slots, pool.buffers
      ensures Valid() && (again <==> timerRunning) && timers == if again then 1 else 0
      ensures exists k: nat, how :: (old(Given(m, lazyfree, patience)).Ends(safe, k, how, S()) &&
        (again <==> how.Freed? || how.Enough? || how.TimeUp?))
    {
      hide EvictionPool.Valid, EvictionPool.Contents, Sound, Env.Draws, Cycle.Ends, AllRemain, TotalKeys, Quiet;
      var result, keysFreed;
      ghost var how;
      result, how, keysFreed := PerformEvictions(safe, m, lazyfree, patience);
      if result == EvictRunning {
        return true;
      }
      timerRunning := false;
      timers := 0;
      again := false;
    }
  }

  lemma {:induction false} OfferNothing(pool: seq<Candidate>)
    ensures OfferAll(pool, []) == pool
  {
  }

  lemma {:induction false} NothingOfferedYet(pool: seq<Candidate>, cs: seq<Candidate>)
    ensures OfferAll(pool, cs[..0]) == pool
  {
  }

  lemma {:induction false} OfferNext(pool: seq<Candidate>, cs: seq<Candidate>, j: nat)
    requires j < |cs|
    ensures OfferAll(pool, cs[..j + 1]) == Offered(OfferAll(pool, cs[..j]), cs[j])
  {
    assert cs[..j + 1] == cs[..j] + [cs[j]];
    OfferOneMore(pool, cs[..j], cs[j]);
  }

  lemma {:induction false} NoneLive(p: Policy, dbs: seq<Db>)
    ensures BestLive(p, dbs, []) == None
  {
  }

  lemma {:induction false} BestLiveStep(p: Policy, dbs: seq<Db>, cs: seq<Candidate>, k: nat)
    requires k < |cs|
    ensures BestLive(p, dbs, cs[..k + 1]) == if Live(p, dbs, cs[k]) then Some(k) else BestLive(p, dbs, cs[..k])
  {
    assert cs[..k + 1][..k] == cs[..k];
  }

  lemma {:induction false} NothingYet(p: Policy, env: Env, m: Moment, dbs: seq<Db>, r: nat)
    ensures TotalEvictable(p, dbs[..0]) == 0 && RoundUpTo(p, env, m, dbs, r, 0) == []
  {
  }

  lemma {:induction false} NextTotal(p: Policy, dbs: seq<Db>, i: nat)
    requires i < |dbs|
    ensures TotalEvictable(p, dbs[..i + 1]) == TotalEvictable(p, dbs[..i]) + |Evictable(p, dbs[i])|
  {
    hide Evictable;
    assert dbs[..i + 1][..i] == dbs[..i];
  }

  lemma {:induction false} NextOffers(p: Policy, env: Env, m: Moment, dbs: seq<Db>, r: nat, i: nat, pool: seq<Candidate>)
    requires i < |dbs|
    ensures var sofar := OfferAll(pool, RoundUpTo(p, env, m, dbs, r, i));
      OfferAll(pool, RoundUpTo(p, env, m, dbs, r, i + 1)) ==
      if Evictable(p, dbs[i]) == {} then sofar
      else OfferAll(sofar, OffersOf(p, env, m, i, dbs[i], env.sample(r, i, dbs[i])))
  {
    hide RankOf;
    var keys := Drawn(p, env, r, i, dbs[i]);
    OfferAllAppend(pool, RoundUpTo(p, env, m, dbs, r, i), OffersOf(p, env, m, i, dbs[i], keys));
  }

  lemma {:induction false} NotStarted(c: Cycle)
    ensures c.Reached(0, c.s) && FreedSum(c.env, c.t0, 0) == 0
  {
  }

  /** One more pass after k of them: unless the loop stops at this point, it comes to its guard again. */
  lemma {:induction false} OnePass(c: Cycle, k: nat, s: Search, v: Victim)
    requires c.Reached(k, s) && NextVictim(c.p, c.env, c.m, s).0 == Some(v)
    requires FreedSum(c.env, c.t0, k) < Excess(c.env, c.maxmemory, c.t0)
    requires v.0 < |s.dbs| && v.1 in Evictable(c.p, s.dbs[v.0])
    ensures var s1 := NextVictim(c.p, c.env, c.m, s).1;
      var s2 := s1.(dbs := Delete(s1.dbs, v));
      var enough := SeesEnough(c.env, c.maxmemory, c.lazyfree, c.t0, k + 1);
      var late := RunsLate(c.env, c.maxmemory, c.lazyfree, c.t0, k + 1);
      && (!enough && !late ==> c.Reached(k + 1, s2))
      && (enough ==> c.LoopEnds(k + 1, Enough, s2))
      && (!enough && late ==> c.LoopEnds(k + 1, TimeUp, s2))
      && ((k + 1) % 16 != 0 ==> !enough && !late)
    ensures FreedSum(c.env, c.t0, k + 1) ==
            FreedSum(c.env, c.t0, k) + (c.env.used(Seen(c.t0, k) + 1) as int - c.env.used(Seen(c.t0, k) + 2))
    ensures TotalEvictable(c.p, Delete(s.dbs, v)) < TotalEvictable(c.p, s.dbs)
  {
    hide NextVictim, TotalEvictable, Evictable, Over, Passes, FreedSum, SeesEnough, RunsLate, Delete;
    TotalDecreasesHere(c.p, s.dbs, v);
    PassStep(c, k, s, v);
    FreedStep(c.env, c.t0, k);
    NoCheck(c, k + 1);
    assert c.Continues(k);
  }

  lemma {:induction false} PassStep(c: Cycle, k: nat, s: Search, v: Victim)
    requires c.Passed(k) == Some(s) && NextVictim(c.p, c.env, c.m, s).0 == Some(v)
    ensures var s1 := NextVictim(c.p, c.env, c.m, s).1;
      c.Passed(k + 1) == Some(s1.(dbs := Delete(s1.dbs, v)))
  {
    hide NextVictim, Delete;
  }

  lemma {:induction false} FreedStep(env: Env, t0: nat, k: nat)
    ensures FreedSum(env, t0, k + 1) == FreedSum(env, t0, k) + (env.used(Seen(t0, k) + 1) as int - env.used(Seen(t0, k) + 2))
  {
  }

  /** Between two checks nothing but the guard can end the loop. */
  lemma {:induction false} NoCheck(c: Cycle, k: nat)
    ensures k % 16 != 0 ==>
      !SeesEnough(c.env, c.maxmemory, c.lazyfree, c.t0, k) && !RunsLate(c.env, c.maxmemory, c.lazyfree, c.t0, k)
  {
  }

  lemma {:induction false} NothingFound(c: Cycle, k: nat, s: Search)
    requires c.Reached(k, s) && NextVictim(c.p, c.env, c.m, s).0 == None
    requires FreedSum(c.env, c.t0, k) < Excess(c.env, c.maxmemory, c.t0)
    ensures c.RunsDry(k, NextVictim(c.p, c.env, c.m, s).1)
  {
    hide NextVictim, Over, Passes, FreedSum;
  }

  lemma {:induction false} LeavesByGuard(c: Cycle, k: nat, s: Search)
    requires c.Reached(k, s) && FreedSum(c.env, c.t0, k) >= Excess(c.env, c.maxmemory, c.t0)
    ensures c.LoopEnds(k, Freed, s)
  {
    hide NextVictim, Over, Passes, FreedSum;
  }

  lemma {:induction false} AfterTheWait(c: Cycle, k: nat, s: Search, seen: bool)
    requires c.RunsDry(k, s) && (seen <==> WaitSucceeds(c.env, c.maxmemory, Seen(c.t0, k), c.patience))
    ensures c.LoopEnds(k, if seen then SeenFreed else NothingLeft, s)
  {
    hide NextVictim, Over, Passes, FreedSum;
  }

  lemma {:induction false} DeleteKeepsSound(p: Policy, s: Search, v: Victim)
    requires Sound(s) && v.0 < |s.dbs| && v.1 in Evictable(p, s.dbs[v.0])
    ensures Sound(s.(dbs := Delete(s.dbs, v)))
  {
  }
}
