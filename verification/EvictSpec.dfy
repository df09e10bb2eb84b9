/**
 * What an eviction cycle does, as functions of what it starts from and of what it reads on the way: the keys that
 * sampling returns, and memory use and time as they are found at each reading. Everything proved of these functions
 * holds for all samples, all memory readings and all times.
 */
module EvictSpec {
  import opened Base
  import opened PoolSpec
  import opened Histogram
  import opened RandomScan
  import opened Evict

  type Victim = (nat, Bytes)

  /**
   * The world outside the engine. In round r, sample(r, i, db) are the keys drawn from database i and pick(r, i, db) is
   * its random key; used and overhead are the memory readings in the order they are made, late says whether the time
   * limit has passed at a reading and pending whether objects are still being freed in the background. root is sqrt.
   */
  datatype Env = Env(
    sample: (nat, nat, Db) -> seq<Bytes>, pick: (nat, nat, Db) -> Bytes, root: real -> real,
    used: nat -> nat, overhead: nat -> nat, late: nat -> bool, pending: nat -> bool)
  {
    /** root is the square root. */
    ghost predicate Roots() {
      forall v {:trigger root(v)} :: v >= 0.0 ==> IsRoot(root(v), v)
    }

    /** Draws are made from the keys that can be evicted, and a database that has some gives at least one. */
    ghost predicate Draws(p: Policy) {
      && (forall r, i, db {:trigger sample(r, i, db)} :: Evictable(p, db) != {} ==> sample(r, i, db) != [])
      && (forall r, i, db {:trigger sample(r, i, db)} :: Evictable(p, db) != {} ==> AllFrom(p, db, sample(r, i, db)))
      && (forall r, i, db {:trigger pick(r, i, db)} :: Evictable(p, db) != {} ==> pick(r, i, db) in Evictable(p, db))
    }
  }

  ghost predicate IsRoot(r: real, v: real) {
    r >= 0.0 && r * r == v
  }

  ghost predicate AllFrom(p: Policy, db: Db, keys: seq<Bytes>) {
    forall k :: k in keys ==> k in Evictable(p, db)
  }

  // ------------------------------------------------------------------ one round of sampling

  /** The keys drawn from a database in a round: none when it has nothing to evict. */
  function Drawn(p: Policy, env: Env, r: nat, i: nat, db: Db): (keys: seq<Bytes>) {
    if Evictable(p, db) == {} then [] else env.sample(r, i, db)
  }

  /** The object under a key of the database. */
  function ObjectAt(db: Db, key: Bytes): Obj {
    if key in db.dict then db.dict[key] else Obj(0, [])
  }

  function ExpireAt(db: Db, key: Bytes): int {
    if key in db.expires then db.expires[key] else -1
  }

  function Histories(db: Db, keys: seq<Bytes>): (r: seq<seq<nat>>)
    ensures |r| == |keys|
  {
    seq(|keys|, j requires 0 <= j < |keys| => ObjectAt(db, keys[j]).history)
  }

  /** The windows computed from the histories of exactly the keys drawn. */
  function Windows(env: Env, m: Moment, db: Db, keys: seq<Bytes>): (b: seq<real>)
    ensures |b| == NUM_WINDOWS
  {
    var st := StatsOf(AllAges(m.clock, Histories(db, keys)));
    Boundaries(st, env.root(Variance(st)))
  }

  /** The rank of one of the keys drawn. */
  function RankOf(p: Policy, env: Env, m: Moment, db: Db, keys: seq<Bytes>, key: Bytes): real {
    if p.AllkeysLruHistogram? then Score(m.clock, ObjectAt(db, key).history, Windows(env, m, db, keys))
    else IdleRank(p, m, ObjectAt(db, key), ExpireAt(db, key)) as real
  }

  /** Every key drawn is offered, in the order drawn. */
  function OffersOf(p: Policy, env: Env, m: Moment, i: nat, db: Db, keys: seq<Bytes>): (cs: seq<Candidate>)
    ensures |cs| == |keys|
    ensures forall j :: 0 <= j < |keys| ==> cs[j].dbid == i && cs[j].key == keys[j]
  {
    seq(|keys|, j requires 0 <= j < |keys| => Candidate(RankOf(p, env, m, db, keys, keys[j]), i, keys[j]))
  }

  function RoundUpTo(p: Policy, env: Env, m: Moment, dbs: seq<Db>, r: nat, n: nat): (cs: seq<Candidate>)
    requires n <= |dbs|
  {
    if n == 0 then []
    else
      RoundUpTo(p, env, m, dbs, r, n - 1) +
      OffersOf(p, env, m, n - 1, dbs[n - 1], Drawn(p, env, r, n - 1, dbs[n - 1]))
  }

  /** All offers of a round, database by database. */
  function Round(p: Policy, env: Env, m: Moment, dbs: seq<Db>, r: nat): (cs: seq<Candidate>) {
    RoundUpTo(p, env, m, dbs, r, |dbs|)
  }

  // ------------------------------------------------------------------ choosing a victim

  /** What the choice of a victim depends on: the data, the pool, the rounds drawn so far and the random counter. */
  datatype Search = Search(dbs: seq<Db>, pool: seq<Candidate>, rounds: nat, nextDb: nat)

  /** The place of the best candidate that can be evicted now. */
  function BestLive(p: Policy, dbs: seq<Db>, cs: seq<Candidate>): (n: Option<nat>)
    ensures n.Some? ==> n.value < |cs| && Live(p, dbs, cs[n.value])
    ensures n.Some? ==> forall i :: n.value < i < |cs| ==> !Live(p, dbs, cs[i])
    ensures n.None? ==> forall i :: 0 <= i < |cs| ==> !Live(p, dbs, cs[i])
  {
    if cs == [] then None
    else if Live(p, dbs, cs[|cs| - 1]) then Some(|cs| - 1)
    else BestLive(p, dbs, cs[..|cs| - 1])
  }

  /** One round: offer, then take the best live candidate, dropping everything better; without one the pool is emptied. */
  function OneRound(p: Policy, env: Env, m: Moment, s: Search): (r: (Option<Victim>, Search)) {
    var filled := OfferAll(s.pool, Round(p, env, m, s.dbs, s.rounds));
    match BestLive(p, s.dbs, filled)
    case Some(n) => (Some((filled[n].dbid, filled[n].key)), s.(pool := filled[..n], rounds := s.rounds + 1))
    case None => (None, s.(pool := [], rounds := s.rounds + 1))
  }

  function PoolPick(p: Policy, env: Env, m: Moment, s: Search): (r: (Option<Victim>, Search)) {
    if TotalEvictable(p, s.dbs) == 0 then (None, s.(rounds := s.rounds + 1))
    else
      var (v, s1) := OneRound(p, env, m, s);
      if v.Some? then (v, s1) else OneRound(p, env, m, s1)
  }

  /** The random policies advance their counter to the next database that has something to evict. */
  function RandomPick(p: Policy, env: Env, s: Search, i: nat): (r: (Option<Victim>, Search))
    requires i <= |s.dbs|
    decreases |s.dbs| - i
  {
    if i == |s.dbs| then (None, s)
    else
      var next := (s.nextDb + 1) % U32;
      var j := next % |s.dbs|;
      if Evictable(p, s.dbs[j]) != {} then
        (Some((j, env.pick(s.rounds, j, s.dbs[j]))), s.(nextDb := next, rounds := s.rounds + 1))
      else RandomPick(p, env, s.(nextDb := next), i + 1)
  }

  function NextVictim(p: Policy, env: Env, m: Moment, s: Search): (r: (Option<Victim>, Search)) {
    if p.UsesPool() then PoolPick(p, env, m, s) else RandomPick(p, env, s, 0)
  }

  function Delete(dbs: seq<Db>, v: Victim): (r: seq<Db>)
    ensures |r| == |dbs|
  {
    if v.0 < |dbs| then dbs[v.0 := Removed(dbs[v.0], v.1)] else dbs
  }

  /** The state after k passes, each of which chose a victim and deleted it. */
  function Passes(p: Policy, env: Env, m: Moment, s: Search, k: nat): (r: Option<Search>) {
    if k == 0 then Some(s)
    else match Passes(p, env, m, s, k - 1)
      case None => None
      case Some(s1) =>
        match NextVictim(p, env, m, s1)
        case (None, _) => None
        case (Some(v), s2) => Some(s2.(dbs := Delete(s2.dbs, v)))
  }

  // ------------------------------------------------------------------ memory and time

  /** Used memory without the output buffers exceeds the limit at a reading. */
  predicate Over(env: Env, maxmemory: nat, t: nat) {
    maxmemory != 0 && env.used(t) as int - env.overhead(t) > maxmemory
  }

  /** The readings of pass k, after the one at t0: before its deletion, after it, and when it checks whether to stop. */
  function Before(t0: nat, k: nat): nat {
    t0 + 3 * k + 1
  }

  function After(t0: nat, k: nat): nat {
    t0 + 3 * k + 2
  }

  /** The last reading made when k passes are over. */
  function Seen(t0: nat, k: nat): nat {
    t0 + 3 * k
  }

  /** What the first k deletions freed, as measured around each of them; it may be negative. */
  function FreedSum(env: Env, t0: nat, k: nat): int {
    if k == 0 then 0 else FreedSum(env, t0, k - 1) + (env.used(Before(t0, k - 1)) as int - env.used(After(t0, k - 1)))
  }

  function Excess(env: Env, maxmemory: nat, t0: nat): int {
    env.used(t0) as int - env.overhead(t0) - maxmemory
  }

  /** Over the limit: there is one, and used memory less the output buffers is more than it. */
  lemma {:induction false} OverInNumbers(env: Env, maxmemory: nat, t: nat)
    ensures Over(env, maxmemory, t) <==> maxmemory > 0 && env.used(t) > maxmemory + env.overhead(t)
    ensures Over(env, maxmemory, t) ==> maxmemory + env.overhead(t) + Excess(env, maxmemory, t) == env.used(t)
  {
  }

  /** After every sixteenth deletion the loop may stop: memory is found within the limit, or time is up. */
  predicate SeesEnough(env: Env, maxmemory: nat, lazyfree: bool, t0: nat, k: nat) {
    k > 0 && k % 16 == 0 && lazyfree && !Over(env, maxmemory, Seen(t0, k))
  }

  predicate RunsLate(env: Env, maxmemory: nat, lazyfree: bool, t0: nat, k: nat) {
    k > 0 && k % 16 == 0 && !SeesEnough(env, maxmemory, lazyfree, t0, k) && env.late(Seen(t0, k))
  }

  /** Pass k is begun: the deletions before it have not freed enough, and none of them ended the loop. */
  ghost predicate GoesOn(env: Env, maxmemory: nat, lazyfree: bool, t0: nat, k: nat) {
    && FreedSum(env, t0, k) < Excess(env, maxmemory, t0)
    && !SeesEnough(env, maxmemory, lazyfree, t0, k)
    && !RunsLate(env, maxmemory, lazyfree, t0, k)
  }

  /** Apart from the deletions, memory does not change during the first k passes. */
  ghost predicate Quiet(env: Env, t0: nat, k: nat) {
    forall i: nat :: i < k ==> QuietPass(env, t0, i)
  }

  ghost predicate QuietPass(env: Env, t0: nat, i: nat) {
    && env.used(Before(t0, i)) == env.used(Seen(t0, i))
    && env.used(After(t0, i)) == env.used(Seen(t0, i + 1))
    && env.overhead(Seen(t0, i + 1)) == env.overhead(t0)
  }

  /** Without outside changes, what the deletions freed is what memory fell by. */
  lemma {:induction false} QuietFreed(env: Env, t0: nat, k: nat)
    requires Quiet(env, t0, k)
    ensures FreedSum(env, t0, k) == env.used(t0) as int - env.used(Seen(t0, k))
    ensures env.overhead(Seen(t0, k)) == env.overhead(t0)
  {
    if k > 0 {
      QuietFreed(env, t0, k - 1);
      assert QuietPass(env, t0, k - 1);
    }
  }

  /** Leaving the loop by its guard puts memory at or below the limit, when only deletions change memory. */
  lemma {:induction false} FreedEnough(env: Env, maxmemory: nat, t0: nat, k: nat)
    requires Quiet(env, t0, k)
    ensures maxmemory != 0 ==> (FreedSum(env, t0, k) >= Excess(env, maxmemory, t0) <==> !Over(env, maxmemory, Seen(t0, k)))
  {
    QuietFreed(env, t0, k);
  }

  // ------------------------------------------------------------------ how a cycle ends

  /** The reasons for which an eviction cycle stops. */
  datatype Exit = Skipped | WithinLimit | Forbidden | Freed | Enough | TimeUp | NothingLeft | SeenFreed

  /** The wait for background frees, at most patience polls long: does one of them find memory within the limit? */
  predicate WaitSucceeds(env: Env, maxmemory: nat, t: nat, patience: nat)
    decreases patience
  {
    patience > 0 && env.pending(t) && (!Over(env, maxmemory, t) || WaitSucceeds(env, maxmemory, t + 1, patience - 1))
  }

  /** The wait succeeds at the first poll that finds memory within the limit, while something is still being freed. */
  lemma {:induction false} WaitInPolls(env: Env, maxmemory: nat, t: nat, patience: nat)
    ensures WaitSucceeds(env, maxmemory, t, patience) <==>
      exists i: nat :: i < patience && StillPending(env, t, i) && WithinAt(env, maxmemory, t + i)
    decreases patience
  {
    hide Over;
    OverInNumbers(env, maxmemory, t);
    if patience > 0 {
      WaitInPolls(env, maxmemory, t + 1, patience - 1);
      if WaitSucceeds(env, maxmemory, t, patience) {
        if Over(env, maxmemory, t) {
          var i: nat :| i < patience - 1 && StillPending(env, t + 1, i) && WithinAt(env, maxmemory, t + 1 + i);
          PendingShift(env, t, i);
          assert StillPending(env, t, i + 1) && WithinAt(env, maxmemory, t + (i + 1));
        } else {
          PendingShift(env, t, 0);
          assert StillPending(env, t, 0) && WithinAt(env, maxmemory, t + 0);
        }
      }
      if i: nat :| i < patience && StillPending(env, t, i) && WithinAt(env, maxmemory, t + i) {
        PendingShift(env, t, if i > 0 then i - 1 else 0);
        if i > 0 {
          assert StillPending(env, t + 1, i - 1) && WithinAt(env, maxmemory, t + 1 + (i - 1));
        }
      }
    }
  }

  ghost predicate StillPending(env: Env, t: nat, i: nat) {
    forall j: nat :: t <= j <= t + i ==> env.pending(j)
  }

  ghost predicate WithinAt(env: Env, maxmemory: nat, t: nat) {
    maxmemory == 0 || env.used(t) <= maxmemory + env.overhead(t)
  }

  /** What the check after every sixteenth deletion has to find for the loop to go on. */
  ghost predicate MayGoOn(env: Env, maxmemory: nat, lazyfree: bool, t: nat) {
    !env.late(t) && (lazyfree ==> !WithinAt(env, maxmemory, t))
  }

  lemma {:induction false} PendingShift(env: Env, t: nat, i: nat)
    ensures StillPending(env, t, i + 1) <==> env.pending(t) && StillPending(env, t + 1, i)
    ensures StillPending(env, t, 0) <==> env.pending(t)
  {
  }

  /** What a cycle is given: the policy, the outside world, the limit, and the state and reading it starts from. */
  datatype Cycle = Cycle(p: Policy, env: Env, maxmemory: nat, m: Moment, lazyfree: bool, patience: nat, s: Search, t0: nat)
  {
    function Passed(k: nat): Option<Search> {
      Passes(p, env, m, s, k)
    }

    ghost predicate Continues(k: nat) {
      GoesOn(env, maxmemory, lazyfree, t0, k)
    }

    /** The loop is about to test its guard after k passes. */
    ghost predicate Reached(k: nat, s1: Search) {
      && Passed(k) == Some(s1) && (forall j: nat :: j < k ==> Continues(j))
      && !SeesEnough(env, maxmemory, lazyfree, t0, k) && !RunsLate(env, maxmemory, lazyfree, t0, k)
    }

    /** After k passes the search finds nothing. */
    ghost predicate RunsDry(k: nat, s1: Search) {
      Passed(k).Some? && (forall j: nat :: j < k ==> Continues(j)) && FoundNothing(k, s1)
    }

    /** The loop is over after k passes, none of which was one too many, with this reason and in this state. */
    ghost predicate LoopEnds(k: nat, how: Exit, s1: Search) {
      && Passed(k).Some?
      && (forall j: nat :: j < k ==> Continues(j))
      && match how
         case Freed =>
           s1 == Passed(k).value && FreedSum(env, t0, k) >= Excess(env, maxmemory, t0) &&
           !SeesEnough(env, maxmemory, lazyfree, t0, k) && !RunsLate(env, maxmemory, lazyfree, t0, k)
         case Enough => s1 == Passed(k).value && SeesEnough(env, maxmemory, lazyfree, t0, k)
         case TimeUp => s1 == Passed(k).value && RunsLate(env, maxmemory, lazyfree, t0, k)
         case NothingLeft => FoundNothing(k, s1) && !WaitSucceeds(env, maxmemory, Seen(t0, k), patience)
         case SeenFreed => FoundNothing(k, s1) && WaitSucceeds(env, maxmemory, Seen(t0, k), patience)
         case _ => false
    }

    ghost predicate FoundNothing(k: nat, s1: Search)
      requires Passed(k).Some?
    {
      Continues(k) && NextVictim(p, env, m, Passed(k).value) == (None, s1)
    }

    /** The whole cycle ends after k deletions for this reason, in this state. */
    ghost predicate Ends(safe: bool, k: nat, how: Exit, s1: Search) {
      if !safe then how.Skipped? && k == 0 && s1 == s
      else if !Over(env, maxmemory, t0) then how.WithinLimit? && k == 0 && s1 == s
      else if p.NoEviction? then how.Forbidden? && k == 0 && s1 == s
      else LoopEnds(k, how, s1)
    }
  }

  /** What a cycle does is determined by what it is given: there is only one way for it to end. */
  lemma {:induction false} EndsOneWay(c: Cycle, safe: bool, k: nat, how: Exit, s1: Search, k': nat, how': Exit, s2: Search)
    requires c.Ends(safe, k, how, s1) && c.Ends(safe, k', how', s2)
    ensures k == k' && how == how' && s1 == s2
  {
    hide Passes, NextVictim, FreedSum, WaitSucceeds;
    if safe && Over(c.env, c.maxmemory, c.t0) && !c.p.NoEviction? {
      if k < k' {
        NoFurther(c, k, how, s1, k', how', s2);
      } else if k' < k {
        NoFurther(c, k', how', s2, k, how, s1);
      }
    }
  }

  /** A cycle that has ended after k passes does not begin another. */
  lemma {:induction false} NoFurther(c: Cycle, k: nat, how: Exit, s1: Search, k': nat, how': Exit, s2: Search)
    requires c.LoopEnds(k, how, s1) && c.LoopEnds(k', how', s2)
    ensures k' <= k
  {
    hide Passes, NextVictim, FreedSum, WaitSucceeds, SeesEnough, RunsLate, GoesOn;
    if k < k' {
      PassesPrefix(c.p, c.env, c.m, c.s, k + 1, k');
      assert c.Continues(k);
      LastPassFound(c, k);
      EndedDoesNotContinue(c, k);
    }
  }

  lemma {:induction false} LastPassFound(c: Cycle, k: nat)
    requires c.Passed(k + 1).Some?
    ensures c.Passed(k).Some? && NextVictim(c.p, c.env, c.m, c.Passed(k).value).0.Some?
  {
    hide NextVictim;
  }

  /** A cycle that goes on has not come to its guard, to a check that stops it, or to the end of its time. */
  lemma {:induction false} EndedDoesNotContinue(c: Cycle, k: nat)
    requires c.Continues(k)
    ensures FreedSum(c.env, c.t0, k) < Excess(c.env, c.maxmemory, c.t0)
    ensures !SeesEnough(c.env, c.maxmemory, c.lazyfree, c.t0, k) && !RunsLate(c.env, c.maxmemory, c.lazyfree, c.t0, k)
  {
  }

  lemma {:induction false} PassesPrefix(p: Policy, env: Env, m: Moment, s: Search, k: nat, n: nat)
    requires k <= n && Passes(p, env, m, s, n).Some?
    ensures Passes(p, env, m, s, k).Some?
    decreases n
  {
    hide NextVictim;
    if k < n {
      PassesPrefix(p, env, m, s, k, n - 1);
    }
  }
}
