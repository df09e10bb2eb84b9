/**
 * performEvictions (evict.c): filling the pool from sampled keys, choosing a victim, deleting it and keeping account of
 * the memory. Sampling, memory use and elapsed time are arbitrary; what is proved holds for all of their outcomes.
 */
module Evict {
  import opened Base
  import opened PoolSpec
  import opened Histogram
  import opened LruClock
  import opened RandomScan

  // ------------------------------------------------------------------ policies and ranks

  datatype Policy =
    | VolatileLru | VolatileLfu | VolatileTtl | VolatileRandom
    | AllkeysLru | AllkeysLfu | AllkeysRandom | AllkeysLruHistogram
    | NoEviction
  {
    predicate Allkeys() {
      AllkeysLru? || AllkeysLfu? || AllkeysRandom? || AllkeysLruHistogram?
    }

    predicate Lfu() {
      VolatileLfu? || AllkeysLfu?
    }

    predicate Random() {
      VolatileRandom? || AllkeysRandom?
    }

    predicate UsesPool() {
      !Random() && !NoEviction?
    }
  }

  datatype Obj = Obj(lru: Clock24, history: seq<nat>)

  datatype Db = Db(dict: map<Bytes, Obj>, expires: map<Bytes, int>)

  /** The clocks an eviction cycle reads: they do not advance while it runs. */
  datatype Moment = Moment(clock: nat, minutes: nat, lfuDecay: nat)

  /** Minutes since the last decrement; a decrement time after now is taken for one wrap of the 16-bit clock. */
  function LfuTimeElapsed(minutes: nat, ldt: nat): (t: nat)
    requires ldt <= 65535
  {
    if minutes >= ldt then minutes - ldt else 65535 - ldt + minutes
  }

  function LfuDecrAndReturn(m: Moment, lru: Clock24): (counter: nat)
    ensures counter <= 255
  {
    var ldt, counter := lru / 256, lru % 256;
    var periods := if m.lfuDecay != 0 then LfuTimeElapsed(m.minutes, ldt) / m.lfuDecay else 0;
    if periods > counter then 0 else if periods > 0 then counter - periods else counter
  }

  /** The rank used by every policy but the histogram one; all are unsigned, the expire one by wrap-around. */
  function IdleRank(p: Policy, m: Moment, o: Obj, expire: int): (idle: nat) {
    if p.VolatileTtl? then (ULLONG_MAX - expire) % U64
    else if p.Lfu() then 255 - LfuDecrAndReturn(m, o.lru)
    else EstimateIdleTime(m.clock, o.lru)
  }

  /**
   * What is left of a frequency counter: the low byte less one for every whole decay period since the minute in the
   * high bytes, and never below zero; without a decay time it is the low byte. The minute may have wrapped once.
   */
  lemma {:induction false} CounterAfterPeriods(m: Moment, lru: Clock24, periods: nat)
    requires m.lfuDecay > 0
    requires var since := if lru / 256 <= m.minutes then m.minutes - lru / 256 else m.minutes + 65535 - lru / 256;
      periods * m.lfuDecay <= since < (periods + 1) * m.lfuDecay
    ensures LfuDecrAndReturn(m, lru) == if periods <= lru % 256 then lru % 256 - periods else 0
    ensures LfuDecrAndReturn(m.(lfuDecay := 0), lru) == lru % 256
  {
    var since := if lru / 256 <= m.minutes then m.minutes - lru / 256 else m.minutes + 65535 - lru / 256;
    var d := m.lfuDecay;
    assert (periods + 1) * d == periods * d + d;
    assert d * periods == periods * d;
    ModUnique(since, d, periods, since - periods * d);
    DivMod(since, d);
    assert d * (since / d) == d * periods;
    SameQuotient(d, since / d, periods);
  }

  lemma SameQuotient(d: nat, a: nat, b: nat)
    requires d > 0 && d * a == d * b
    ensures a == b
  {
    ProductGrows(d, a - b);
    assert d * (a - b) == d * a - d * b;
  }

  /** The more minutes count as elapsed, the less is left of a frequency counter; it never goes below zero. */
  lemma FrequencyDecays(m: Moment, later: nat, lru: Clock24)
    requires LfuTimeElapsed(m.minutes, lru / 256) <= LfuTimeElapsed(later, lru / 256)
    ensures LfuDecrAndReturn(m.(minutes := later), lru) <= LfuDecrAndReturn(m, lru)
  {
    if m.lfuDecay > 0 {
      QuotientGrows(LfuTimeElapsed(m.minutes, lru / 256), LfuTimeElapsed(later, lru / 256), m.lfuDecay);
    }
  }

  lemma QuotientGrows(a: nat, b: nat, d: nat)
    requires a <= b && d > 0
    ensures a / d <= b / d
  {
    DivMod(a, d);
    DivMod(b, d);
    var p, q := a / d, b / d;
    ProductGrows(d, p - q);
    assert d * (p - q) == d * p - d * q;
  }

  /**
   * What a policy ranks higher it would rather evict: the key accessed longer ago, as long as the clock has not
   * wrapped, the key used less often, or the key that expires sooner.
   */
  lemma RankOrders(p: Policy, m: Moment, a: Obj, b: Obj, expireA: int, expireB: int)
    ensures (p.VolatileLru? || p.AllkeysLru?) && a.lru <= m.clock && b.lru <= m.clock ==>
      (IdleRank(p, m, a, expireA) > IdleRank(p, m, b, expireB) <==> a.lru < b.lru)
    ensures p.Lfu() ==>
      (IdleRank(p, m, a, expireA) > IdleRank(p, m, b, expireB) <==> LfuDecrAndReturn(m, a.lru) < LfuDecrAndReturn(m, b.lru))
    ensures p.VolatileTtl? && 0 <= expireA < U64 && 0 <= expireB < U64 ==>
      (IdleRank(p, m, a, expireA) > IdleRank(p, m, b, expireB) <==> expireA < expireB)
  {
    hide LfuDecrAndReturn;
  }

  /** The keys a policy may evict from a database. */
  function Evictable(p: Policy, db: Db): (r: set<Bytes>) {
    if p.Allkeys() then db.dict.Keys else db.expires.Keys
  }

  /** The volatile policies evict keys that have an expire, the others any key. */
  lemma {:induction false} EvictableByPolicy(p: Policy, db: Db)
    ensures p in {VolatileLru, VolatileLfu, VolatileTtl, VolatileRandom} ==>
      forall k :: k in Evictable(p, db) <==> k in db.expires
    ensures p in {AllkeysLru, AllkeysLfu, AllkeysRandom, AllkeysLruHistogram} ==>
      forall k :: k in Evictable(p, db) <==> k in db.dict
    ensures p.UsesPool() <==> p !in {VolatileRandom, AllkeysRandom, NoEviction}
    ensures p.Random() <==> p in {VolatileRandom, AllkeysRandom}
  {
  }

  function TotalEvictable(p: Policy, dbs: seq<Db>): (n: nat) {
    if dbs == [] then 0 else TotalEvictable(p, dbs[..|dbs| - 1]) + |Evictable(p, dbs[|dbs| - 1])|
  }

  lemma {:induction false} TotalStep(p: Policy, dbs: seq<Db>)
    ensures dbs == [] ==> TotalEvictable(p, dbs) == 0
    ensures dbs != [] ==>
      TotalEvictable(p, dbs) == TotalEvictable(p, dbs[..|dbs| - 1]) + |Evictable(p, dbs[|dbs| - 1])|
  {
    hide Evictable;
  }

  lemma {:induction false} TotalZero(p: Policy, dbs: seq<Db>)
    ensures TotalEvictable(p, dbs) == 0 <==> forall i :: 0 <= i < |dbs| ==> Evictable(p, dbs[i]) == {}
  {
    hide TotalEvictable, Evictable;
    TotalStep(p, dbs);
    if dbs != [] {
      TotalZero(p, dbs[..|dbs| - 1]);
      assert forall i :: 0 <= i < |dbs| - 1 ==> dbs[..|dbs| - 1][i] == dbs[i];
    }
  }

  function Removed(db: Db, key: Bytes): Db {
    Db(db.dict - {key}, db.expires - {key})
  }

  /** The key is gone, with its expire, and every other key is as it was. */
  lemma {:induction false} RemovedExactly(db: Db, key: Bytes)
    ensures key !in Removed(db, key).dict && key !in Removed(db, key).expires
    ensures forall k :: k != key ==>
      && (k in Removed(db, key).dict <==> k in db.dict) && (k in Removed(db, key).expires <==> k in db.expires)
      && (k in db.dict ==> Removed(db, key).dict[k] == db.dict[k])
      && (k in db.expires ==> Removed(db, key).expires[k] == db.expires[k])
  {
  }

  lemma RemovedEvictable(p: Policy, db: Db, key: Bytes)
    requires key in Evictable(p, db)
    ensures |Evictable(p, Removed(db, key))| == |Evictable(p, db)| - 1
  {
    assert Evictable(p, Removed(db, key)) == Evictable(p, db) - {key};
  }

  lemma {:induction false} TotalDecreases(p: Policy, dbs: seq<Db>, i: nat, key: Bytes)
    requires i < |dbs| && key in Evictable(p, dbs[i])
    ensures TotalEvictable(p, dbs[i := Removed(dbs[i], key)]) == TotalEvictable(p, dbs) - 1
  {
    hide TotalEvictable, Evictable, Removed;
    var n := |dbs| - 1;
    var dbs' := dbs[i := Removed(dbs[i], key)];
    TotalStep(p, dbs);
    TotalStep(p, dbs');
    if i < n {
      TotalDecreases(p, dbs[..n], i, key);
      assert dbs'[..n] == dbs[..n][i := Removed(dbs[..n][i], key)];
    } else {
      assert dbs'[..n] == dbs[..n];
      RemovedEvictable(p, dbs[n], key);
    }
  }

  /** What the eviction engine relies on: only existing keys have an expire. */
  ghost predicate WellFormed(db: Db) {
    db.expires.Keys <= db.dict.Keys
  }

  ghost predicate AllWellFormed(dbs: seq<Db>) {
    forall i :: 0 <= i < |dbs| ==> WellFormed(dbs[i])
  }

  // ------------------------------------------------------------------ pool contents

  function OfferAll(pool: seq<Candidate>, cs: seq<Candidate>): (r: seq<Candidate>) {
    if cs == [] then pool else Offered(OfferAll(pool, cs[..|cs| - 1]), cs[|cs| - 1])
  }

  lemma {:induction false} OfferAllAppend(pool: seq<Candidate>, cs: seq<Candidate>, ds: seq<Candidate>)
    ensures OfferAll(pool, cs + ds) == OfferAll(OfferAll(pool, cs), ds)
  {
    hide Offered;
    if ds == [] {
      assert cs + ds == cs;
    } else {
      var n := |ds| - 1;
      OfferAllAppend(pool, cs, ds[..n]);
      var all := cs + ds;
      assert all[..|all| - 1] == cs + ds[..n] && all[|all| - 1] == ds[n];
    }
  }

  lemma {:induction false} OfferAllIsRun(cs: seq<Candidate>)
    ensures OfferAll([], cs) == Run(Offers(cs))
  {
    if cs != [] {
      var n := |cs| - 1;
      OfferAllIsRun(cs[..n]);
      assert Offers(cs)[..n] == Offers(cs[..n]);
    }
  }

  /** The candidate names a key that can be evicted now; a pool entry that does not is called a ghost. */
  predicate Live(p: Policy, dbs: seq<Db>, c: Candidate) {
    c.dbid < |dbs| && c.key in Evictable(p, dbs[c.dbid])
  }

  ghost predicate AllInDb(dbs: seq<Db>, cs: seq<Candidate>) {
    forall i :: 0 <= i < |cs| ==> cs[i].dbid < |dbs|
  }

  lemma OfferedMembers(pool: seq<Candidate>, e: Candidate)
    ensures forall i :: 0 <= i < |Offered(pool, e)| ==> Offered(pool, e)[i] in pool || Offered(pool, e)[i] == e
    ensures Offered(pool, e) != []
  {
  }

  lemma {:induction false} OfferOneMore(pool: seq<Candidate>, cs: seq<Candidate>, e: Candidate)
    ensures OfferAll(pool, cs + [e]) == Offered(OfferAll(pool, cs), e)
  {
    assert (cs + [e])[..|cs|] == cs;
  }

  /** Offers only add the offered candidates. */
  lemma {:induction false} OfferAllMembers(pool: seq<Candidate>, cs: seq<Candidate>, c: Candidate)
    requires c in OfferAll(pool, cs)
    ensures c in pool || c in cs
  {
    if cs != [] {
      var n := |cs| - 1;
      OfferedMembers(OfferAll(pool, cs[..n]), cs[n]);
      if c != cs[n] {
        OfferAllMembers(pool, cs[..n], c);
      }
    }
  }

  lemma {:induction false} OfferAllNotEmpty(pool: seq<Candidate>, cs: seq<Candidate>)
    requires pool != [] || cs != []
    ensures OfferAll(pool, cs) != []
  {
    if cs != [] {
      OfferedMembers(OfferAll(pool, cs[..|cs| - 1]), cs[|cs| - 1]);
    }
  }

  lemma {:induction false} OfferAllStep(pool: seq<Candidate>, cs: seq<Candidate>)
    ensures cs == [] ==> OfferAll(pool, cs) == pool
    ensures cs != [] ==> OfferAll(pool, cs) == Offered(OfferAll(pool, cs[..|cs| - 1]), cs[|cs| - 1])
  {
  }

  ghost predicate InOrder(pool: seq<Candidate>) {
    Ascending(pool) && |pool| <= EVPOOL_SIZE
  }

  lemma {:induction false} OffersKeepOrder(pool: seq<Candidate>, cs: seq<Candidate>)
    requires InOrder(pool)
    ensures InOrder(OfferAll(pool, cs))
  {
    hide OfferAll, Offered, Ascending;
    OfferAllStep(pool, cs);
    if cs != [] {
      OffersKeepOrder(pool, cs[..|cs| - 1]);
      OfferedKeepsOrder(OfferAll(pool, cs[..|cs| - 1]), cs[|cs| - 1]);
    }
  }

  /** A candidate that was offered is in the pool, or the pool is full of candidates that are no worse. */
  ghost predicate KeptOrOutranked(pool: seq<Candidate>, c: Candidate) {
    c in pool || (|pool| == EVPOOL_SIZE && forall i :: 0 <= i < |pool| ==> c.rank <= pool[i].rank)
  }

  lemma {:induction false} OfferIsKeptOrOutranked(pool: seq<Candidate>, e: Candidate)
    requires InOrder(pool)
    ensures KeptOrOutranked(Offered(pool, e), e)
  {
    hide Position;
    var k, r := Position(pool, e.rank), Offered(pool, e);
    if |pool| < EVPOOL_SIZE {
      assert r[k] == e;
    } else if k > 0 {
      assert r[k - 1] == e;
    } else {
      OfferedRejected(pool, e);
    }
  }

  /** A later offer only takes the place of the worst entry, and only when it is better. */
  lemma {:induction false} StaysKeptOrOutranked(pool: seq<Candidate>, e: Candidate, c: Candidate)
    requires InOrder(pool) && KeptOrOutranked(pool, c)
    ensures KeptOrOutranked(Offered(pool, e), c)
  {
    hide Position, Offered;
    if |pool| == EVPOOL_SIZE && Position(pool, e.rank) == 0 {
      OfferedRejected(pool, e);
    } else {
      var r, d := Offered(pool, e), if |pool| < EVPOOL_SIZE then 0 else 1;
      OfferedSize(pool, e);
      forall i | 0 <= i < |r|
        ensures r[i] == if i + d < Position(pool, e.rank) then pool[i + d]
                        else if i + d == Position(pool, e.rank) then e else pool[i + d - 1]
      {
        OfferedAt(pool, e, i);
      }
      if j: nat :| j < |pool| && pool[j] == c && j >= d {
        assert r[if j < Position(pool, e.rank) then j - d else j + 1 - d] == c;
      } else {
        assert d == 1 && c.rank <= pool[0].rank;
      }
    }
  }

  lemma {:induction false} OffersKeptOrOutranked(pool: seq<Candidate>, cs: seq<Candidate>, c: Candidate)
    requires InOrder(pool) && c in cs
    ensures KeptOrOutranked(OfferAll(pool, cs), c)
  {
    hide OfferAll, Offered, KeptOrOutranked, InOrder;
    var n := |cs| - 1;
    OfferAllStep(pool, cs);
    OffersKeepOrder(pool, cs[..n]);
    if c == cs[n] {
      OfferIsKeptOrOutranked(OfferAll(pool, cs[..n]), c);
    } else {
      assert cs == cs[..n] + [cs[n]];
      OffersKeptOrOutranked(pool, cs[..n], c);
      StaysKeptOrOutranked(OfferAll(pool, cs[..n]), cs[n], c);
    }
  }
}
