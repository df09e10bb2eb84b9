/**
 * What the eviction engine promises: which key it picks and why, what a run of passes leaves in place, and when a
 * search finds nothing.
 */
module EvictLaws {
  import opened Base
  import opened PoolSpec
  import opened Histogram
  import opened RandomScan
  import opened Evict
  import opened EvictSpec

  // ------------------------------------------------------------------ the offers of a round

  ghost function AnyEvictable(p: Policy, db: Db): (key: Bytes)
    ensures Evictable(p, db) != {} ==> key in Evictable(p, db)
  {
    if Evictable(p, db) == {} then [] else var key :| key in Evictable(p, db); key
  }

  /** Whatever is read of memory and time, some draws meet the one assumption made about them. */
  lemma {:induction false} DrawsExist(p: Policy, env: Env) returns (some: Env)
    ensures some.Draws(p)
    ensures some == env.(sample := some.sample, pick := some.pick)
  {
    hide Evictable;
    some := env.(sample := (r, i, db) => [AnyEvictable(p, db)], pick := (r, i, db) => AnyEvictable(p, db));
    forall r, i, db | Evictable(p, db) != {}
      ensures some.sample(r, i, db) != [] && AllFrom(p, db, some.sample(r, i, db))
      ensures some.pick(r, i, db) in Evictable(p, db)
    {
      assert some.sample(r, i, db) == [AnyEvictable(p, db)];
      assert some.pick(r, i, db) == AnyEvictable(p, db);
    }
  }

  /** A round offers nothing but drawn keys, each with the rank its policy gives it. */
  lemma {:induction false} RoundMembers(p: Policy, env: Env, m: Moment, dbs: seq<Db>, r: nat, n: nat, c: Candidate)
    requires n <= |dbs| && c in RoundUpTo(p, env, m, dbs, r, n)
    ensures c.dbid < n && c.key in Drawn(p, env, r, c.dbid, dbs[c.dbid])
    ensures c.rank == RankOf(p, env, m, dbs[c.dbid], Drawn(p, env, r, c.dbid, dbs[c.dbid]), c.key)
  {
    hide RankOf, Drawn;
    if n > 0 {
      var i := n - 1;
      var keys := Drawn(p, env, r, i, dbs[i]);
      var cs := OffersOf(p, env, m, i, dbs[i], keys);
      if c in RoundUpTo(p, env, m, dbs, r, i) {
        RoundMembers(p, env, m, dbs, r, i, c);
      } else {
        var j :| 0 <= j < |cs| && cs[j] == c;
        assert keys[j] in keys;
      }
    }
  }

  /** Every key drawn from every database is offered. */
  lemma {:induction false} EveryDrawIsOffered(p: Policy, env: Env, m: Moment, dbs: seq<Db>, r: nat, n: nat, i: nat, key: Bytes)
    requires i < n <= |dbs| && key in Drawn(p, env, r, i, dbs[i])
    ensures Candidate(RankOf(p, env, m, dbs[i], Drawn(p, env, r, i, dbs[i]), key), i, key) in
            RoundUpTo(p, env, m, dbs, r, n)
  {
    hide RankOf, Drawn;
    if i < n - 1 {
      EveryDrawIsOffered(p, env, m, dbs, r, n - 1, i, key);
    } else {
      var keys := Drawn(p, env, r, i, dbs[i]);
      var j :| 0 <= j < |keys| && keys[j] == key;
      var cs := OffersOf(p, env, m, i, dbs[i], keys);
      assert cs[j] == Candidate(RankOf(p, env, m, dbs[i], keys, key), i, key) && cs[j] in cs;
    }
  }

  /** Every candidate has the rank of its own object, with its own expire. */
  lemma {:induction false} RankedByOwnObject(p: Policy, env: Env, m: Moment, dbs: seq<Db>, r: nat, c: Candidate)
    requires env.Draws(p) && AllWellFormed(dbs) && !p.AllkeysLruHistogram? && c in Round(p, env, m, dbs, r)
    ensures c.dbid < |dbs| && c.key in dbs[c.dbid].dict
    ensures var db := dbs[c.dbid];
      c.rank == IdleRank(p, m, db.dict[c.key], if c.key in db.expires then db.expires[c.key] else -1) as real
  {
    hide IdleRank;
    RoundMembers(p, env, m, dbs, r, |dbs|, c);
    DrawIsEvictable(p, env, r, c.dbid, dbs[c.dbid], c.key);
    assert WellFormed(dbs[c.dbid]);
  }

  /** The ages that one draw of the histogram policy is measured against: those of all accesses to the keys drawn. */
  function DrawnAges(m: Moment, db: Db, keys: seq<Bytes>): (ages: seq<nat>) {
    AllAges(m.clock, Histories(db, keys))
  }

  lemma {:induction false} HistoriesOfKeys(db: Db, keys: seq<Bytes>)
    requires forall k :: k in keys ==> k in db.dict
    ensures forall j :: 0 <= j < |keys| ==> Histories(db, keys)[j] == db.dict[keys[j]].history
  {
  }

  /** With recent ages, the windows of a draw are those of the mean and the standard deviation of its ages. */
  lemma {:induction false} WindowsOfDraw(env: Env, m: Moment, db: Db, keys: seq<Bytes>) returns (mean: real, sd: real)
    requires env.Roots() && Recent(DrawnAges(m, db, keys))
    ensures IsSpread(mean, sd, DrawnAges(m, db, keys))
    ensures SortsByDeviation(Windows(env, m, db, keys), DrawnAges(m, db, keys), mean, sd)
  {
    hide Recent, Mean, Variance, StatsOf, IsSpread, SortsByDeviation, Boundaries;
    var ages := DrawnAges(m, db, keys);
    var st := StatsOf(ages);
    StatisticsSound(ages);
    mean, sd := Mean(st), env.root(Variance(st));
    assert IsRoot(sd, Variance(st));
    WindowsSortByDeviation(ages, sd);
  }

  /** A key drawn is offered with the usefulness that its accesses have by that mean and deviation. */
  ghost predicate RankedByDeviation(m: Moment, db: Db, keys: seq<Bytes>, mean: real, sd: real, rank: real, key: Bytes) {
    && IsSpread(mean, sd, DrawnAges(m, db, keys)) && key in db.dict
    && rank == -UsefulnessByDeviation(Ages(m.clock, db.dict[key].history), Least(DrawnAges(m, db, keys)), mean, sd)
  }

  lemma {:induction false} DrawIsRanked(env: Env, m: Moment, db: Db, keys: seq<Bytes>) returns (mean: real, sd: real)
    requires env.Roots() && Recent(DrawnAges(m, db, keys)) && forall k :: k in keys ==> k in db.dict
    ensures IsSpread(mean, sd, DrawnAges(m, db, keys))
    ensures forall j :: 0 <= j < |keys| ==>
      RankedByDeviation(m, db, keys, mean, sd, RankOf(AllkeysLruHistogram, env, m, db, keys, keys[j]), keys[j])
  {
    hide Recent, IsSpread, SortsByDeviation, Windows, AllAges, Ages, Usefulness, UsefulnessByDeviation, Least, Greatest;
    mean, sd := WindowsOfDraw(env, m, db, keys);
    HistoriesOfKeys(db, keys);
    var samples, ages := Histories(db, keys), DrawnAges(m, db, keys);
    forall j | 0 <= j < |keys|
      ensures RankedByDeviation(m, db, keys, mean, sd, RankOf(AllkeysLruHistogram, env, m, db, keys, keys[j]), keys[j])
    {
      assert keys[j] in keys;
      DrawnWithin(m.clock, samples, j);
      UsefulnessInNumbers(Ages(m.clock, samples[j]), Windows(env, m, db, keys), ages, mean, sd);
    }
  }

  ghost predicate OffersByDeviation(cs: seq<Candidate>, m: Moment, db: Db, keys: seq<Bytes>, mean: real, sd: real) {
    && |cs| == |keys| && IsSpread(mean, sd, DrawnAges(m, db, keys))
    && forall j :: 0 <= j < |keys| ==> RankedByDeviation(m, db, keys, mean, sd, cs[j].rank, keys[j])
  }

  lemma {:induction false} OffersAreByDeviation(env: Env, m: Moment, i: nat, db: Db, keys: seq<Bytes>)
    requires env.Roots() && Recent(DrawnAges(m, db, keys)) && forall k :: k in keys ==> k in db.dict
    ensures exists mean, sd :: OffersByDeviation(OffersOf(AllkeysLruHistogram, env, m, i, db, keys), m, db, keys, mean, sd)
  {
    hide Recent, RankedByDeviation, RankOf, IsSpread, DrawnAges;
    var mean, sd := DrawIsRanked(env, m, db, keys);
    assert OffersByDeviation(OffersOf(AllkeysLruHistogram, env, m, i, db, keys), m, db, keys, mean, sd);
  }

  lemma {:induction false} DrawnWithin(now: nat, samples: seq<seq<nat>>, j: nat)
    requires j < |samples|
    ensures var xs, ages := Ages(now, samples[j]), AllAges(now, samples);
      forall i :: 0 <= i < |xs| ==> Least(ages) <= xs[i] <= Greatest(ages)
  {
    hide AllAges, Age, Least, Greatest;
    forall i | 0 <= i < |samples[j]| ensures Age(now, samples[j][i]) in AllAges(now, samples) {
      AgesCollected(now, samples, j, i);
    }
  }

  /** Whatever a round offers can be evicted at that moment. */
  lemma {:induction false} RoundIsLive(p: Policy, env: Env, m: Moment, dbs: seq<Db>, r: nat, c: Candidate)
    requires env.Draws(p) && c in Round(p, env, m, dbs, r)
    ensures Live(p, dbs, c)
  {
    RoundMembers(p, env, m, dbs, r, |dbs|, c);
    DrawIsEvictable(p, env, r, c.dbid, dbs[c.dbid], c.key);
  }

  lemma {:induction false} DrawIsEvictable(p: Policy, env: Env, r: nat, i: nat, db: Db, key: Bytes)
    requires env.Draws(p) && key in Drawn(p, env, r, i, db)
    ensures key in Evictable(p, db)
  {
    hide Evictable;
    assert AllFrom(p, db, env.sample(r, i, db));
  }

  /** A round is empty exactly when nothing can be evicted anywhere. */
  lemma {:induction false} RoundNotEmpty(p: Policy, env: Env, m: Moment, dbs: seq<Db>, r: nat)
    requires env.Draws(p)
    ensures Round(p, env, m, dbs, r) == [] <==> TotalEvictable(p, dbs) == 0
  {
    hide Evictable, TotalEvictable, RankOf, Round;
    TotalZero(p, dbs);
    if TotalEvictable(p, dbs) != 0 {
      var i :| 0 <= i < |dbs| && Evictable(p, dbs[i]) != {};
      SomeDrawn(p, env, m, dbs, r, i);
    } else if Round(p, env, m, dbs, r) != [] {
      RoundIsLive(p, env, m, dbs, r, Round(p, env, m, dbs, r)[0]);
    }
  }

  lemma {:induction false} SomeDrawn(p: Policy, env: Env, m: Moment, dbs: seq<Db>, r: nat, i: nat)
    requires env.Draws(p) && i < |dbs| && Evictable(p, dbs[i]) != {}
    ensures Round(p, env, m, dbs, r) != []
  {
    hide Evictable, RankOf, RoundUpTo;
    var keys := Drawn(p, env, r, i, dbs[i]);
    assert keys == env.sample(r, i, dbs[i]) && keys != [];
    EveryDrawIsOffered(p, env, m, dbs, r, |dbs|, i, keys[0]);
  }

  /** The best of a round of offers to an empty pool. */
  function Top(offered: seq<Candidate>): Candidate
    requires OfferAll([], offered) != []
  {
    OfferAll([], offered)[|OfferAll([], offered)| - 1]
  }

  lemma {:induction false} TopOutranks(offered: seq<Candidate>)
    requires OfferAll([], offered) != []
    ensures Top(offered) in offered
    ensures forall c :: c in offered ==> c.rank <= Top(offered).rank
  {
    hide OfferAll, Run;
    OfferAllIsRun(offered);
    assert OfferAll([], []) == [] by {
      NoOffers();
    }
    TopIsBest(offered);
    var i: nat :| FirstAmongBest(offered, i) && Run(Offers(offered))[|Run(Offers(offered))| - 1] == offered[i];
    forall c | c in offered ensures c.rank <= offered[i].rank {
      var j :| 0 <= j < |offered| && offered[j] == c;
      assert i != j ==> Better(Ticket(offered[i], i), Ticket(offered[j], j));
    }
  }

  lemma {:induction false} NoOffers()
    ensures OfferAll([], []) == []
  {
  }

  // ------------------------------------------------------------------ the victim

  /** A round that starts from an empty pool picks the best of what it has drawn. */
  lemma {:induction false} FreshRoundPicksTop(p: Policy, env: Env, m: Moment, s: Search)
    requires env.Draws(p) && s.pool == [] && TotalEvictable(p, s.dbs) > 0
    ensures var offered := Round(p, env, m, s.dbs, s.rounds);
      && OfferAll([], offered) != []
      && OneRound(p, env, m, s).0 == Some((Top(offered).dbid, Top(offered).key))
  {
    hide OfferAll, Round, TotalEvictable;
    var offered := Round(p, env, m, s.dbs, s.rounds);
    RoundNotEmpty(p, env, m, s.dbs, s.rounds);
    OfferAllNotEmpty([], offered);
    TopOutranks(offered);
    RoundIsLive(p, env, m, s.dbs, s.rounds, Top(offered));
  }

  /**
   * The search needs at most two rounds: if the first finds only ghosts it has emptied the pool, and the second then
   * picks the best of keys drawn a moment ago. It finds a victim exactly when something can be evicted.
   */
  lemma {:induction false} PickFinds(p: Policy, env: Env, m: Moment, s: Search)
    requires env.Draws(p)
    ensures var (v, s1) := PoolPick(p, env, m, s);
      && (v.None? <==> TotalEvictable(p, s.dbs) == 0)
      && (v.Some? ==> v.value.0 < |s.dbs| && v.value.1 in Evictable(p, s.dbs[v.value.0]))
      && s.rounds < s1.rounds <= s.rounds + 2 && s1.dbs == s.dbs && s1.nextDb == s.nextDb
    ensures var (v, s1) := PoolPick(p, env, m, s);
      v.Some? && (s.pool == [] || s1.rounds == s.rounds + 2) ==>
        var offered := Round(p, env, m, s.dbs, s1.rounds - 1);
        OfferAll([], offered) != [] && v.value == (Top(offered).dbid, Top(offered).key)
  {
    hide OfferAll, Round, TotalEvictable, Evictable, Top;
    if TotalEvictable(p, s.dbs) > 0 {
      var (v, s1) := OneRound(p, env, m, s);
      if s.pool == [] {
        FreshRoundPicksTop(p, env, m, s);
      } else if v.None? {
        FreshRoundPicksTop(p, env, m, s1);
      }
    }
  }

  /** What is in the pool when a round has been offered. */
  function Filled(p: Policy, env: Env, m: Moment, s: Search): (pool: seq<Candidate>) {
    OfferAll(s.pool, Round(p, env, m, s.dbs, s.rounds))
  }

  /** The best entry that can be evicted has a rank no lower than anything offered in the round. */
  lemma {:induction false} BestOutranksRound(p: Policy, env: Env, m: Moment, s: Search, c: Candidate)
    requires env.Draws(p) && InOrder(s.pool) && c in Round(p, env, m, s.dbs, s.rounds)
    ensures var best := BestLive(p, s.dbs, Filled(p, env, m, s));
      best.Some? ==> c.rank <= Filled(p, env, m, s)[best.value].rank
  {
    hide OfferAll, Round, Live, BestLive;
    RoundIsLive(p, env, m, s.dbs, s.rounds, c);
    OffersKeepOrder(s.pool, Round(p, env, m, s.dbs, s.rounds));
    OffersKeptOrOutranked(s.pool, Round(p, env, m, s.dbs, s.rounds), c);
    var filled := Filled(p, env, m, s);
    if c in filled {
      var i: nat :| i < |filled| && filled[i] == c;
    }
  }

  /** The state in which the round begins that finds the victim: a first round that finds none has emptied the pool. */
  function LastRound(p: Policy, env: Env, m: Moment, s: Search): (last: Search) {
    var (v, s1) := OneRound(p, env, m, s);
    if v.Some? then s else s1
  }

  /**
   * The victim is the best entry of the pool that can be evicted, and the rank it was offered with is no lower than
   * that of any key drawn in the round that finds it.
   */
  ghost predicate PicksBest(p: Policy, env: Env, m: Moment, s: Search) {
    var last, (v, s1) := LastRound(p, env, m, s), PoolPick(p, env, m, s);
    var filled := Filled(p, env, m, last);
    var best := BestLive(p, s.dbs, filled);
    && last.dbs == s.dbs && s1.rounds == last.rounds + 1
    && best.Some? && v == Some((filled[best.value].dbid, filled[best.value].key))
    && forall c :: c in Round(p, env, m, s.dbs, last.rounds) ==> c.rank <= filled[best.value].rank
  }

  lemma {:induction false} RoundFinds(p: Policy, env: Env, m: Moment, s: Search)
    ensures var (v, s1) := OneRound(p, env, m, s);
      var filled := Filled(p, env, m, s);
      var best := BestLive(p, s.dbs, filled);
      && s1.dbs == s.dbs && s1.rounds == s.rounds + 1 && (v.Some? <==> best.Some?)
      && (v.Some? ==> v == Some((filled[best.value].dbid, filled[best.value].key)))
  {
    hide OfferAll, Round, Live;
  }

  lemma {:induction false} LastRoundFinds(p: Policy, env: Env, m: Moment, s: Search)
    requires InOrder(s.pool) && TotalEvictable(p, s.dbs) > 0
    ensures var last := LastRound(p, env, m, s);
      PoolPick(p, env, m, s) == OneRound(p, env, m, last) && last.dbs == s.dbs && InOrder(last.pool)
  {
    hide OneRound, TotalEvictable, InOrder;
    RoundFinds(p, env, m, s);
    RoundKeepsOrder(p, env, m, s);
  }

  /** Whatever earlier rounds have left in the pool, the search picks the best. */
  lemma {:induction false} VictimOutranksDraw(p: Policy, env: Env, m: Moment, s: Search)
    requires env.Draws(p) && Sound(s) && TotalEvictable(p, s.dbs) > 0
    ensures PicksBest(p, env, m, s)
  {
    hide Round, TotalEvictable, Evictable, Sound, InOrder, OneRound, PoolPick, LastRound, Filled, BestLive;
    SoundInOrder(s);
    PickFinds(p, env, m, s);
    LastRoundFinds(p, env, m, s);
    var last := LastRound(p, env, m, s);
    RoundFinds(p, env, m, last);
    forall c | c in Round(p, env, m, s.dbs, last.rounds)
      ensures var best := BestLive(p, last.dbs, Filled(p, env, m, last));
        best.Some? ==> c.rank <= Filled(p, env, m, last)[best.value].rank
    {
      BestOutranksRound(p, env, m, last, c);
    }
  }

  lemma {:induction false} SoundInOrder(s: Search)
    requires Sound(s)
    ensures InOrder(s.pool)
  {
  }

  /**
   * The end-to-end result: under the histogram policy, the victim of a round that starts from an empty pool is worth
   * no more, by its accesses and the windows of its database's draw, than any other key drawn in that round.
   */
  lemma {:induction false} VictimIsLeastUseful(env: Env, m: Moment, s: Search, i: nat, key: Bytes)
    requires env.Draws(AllkeysLruHistogram) && s.pool == []
    requires i < |s.dbs| && key in Drawn(AllkeysLruHistogram, env, s.rounds, i, s.dbs[i])
    ensures var v := PoolPick(AllkeysLruHistogram, env, m, s).0;
      && v.Some? && v.value.0 < |s.dbs|
      && v.value.1 in Drawn(AllkeysLruHistogram, env, s.rounds, v.value.0, s.dbs[v.value.0])
      && UsefulnessOf(env, m, s, v.value.0, v.value.1) <= UsefulnessOf(env, m, s, i, key)
  {
    var p := AllkeysLruHistogram;
    hide OfferAll, OfferAll, RoundUpTo, TotalEvictable, Top, PoolPick, Evictable, Usefulness, Windows;
    var offered := Round(p, env, m, s.dbs, s.rounds);
    EveryDrawIsOffered(p, env, m, s.dbs, s.rounds, |s.dbs|, i, key);
    RoundNotEmpty(p, env, m, s.dbs, s.rounds);
    FreshPick(p, env, m, s);
    TopOutranks(offered);
    RoundMembers(p, env, m, s.dbs, s.rounds, |s.dbs|, Top(offered));
  }

  /** How much the accesses of a drawn key are worth under the windows of its database's draw. */
  function UsefulnessOf(env: Env, m: Moment, s: Search, i: nat, key: Bytes): real
    requires i < |s.dbs|
  {
    var keys := Drawn(AllkeysLruHistogram, env, s.rounds, i, s.dbs[i]);
    Usefulness(Ages(m.clock, ObjectAt(s.dbs[i], key).history), Windows(env, m, s.dbs[i], keys))
  }

  lemma {:induction false} FreshPick(p: Policy, env: Env, m: Moment, s: Search)
    requires env.Draws(p) && s.pool == [] && TotalEvictable(p, s.dbs) > 0
    ensures var offered := Round(p, env, m, s.dbs, s.rounds);
      && OfferAll([], offered) != []
      && PoolPick(p, env, m, s).0 == Some((Top(offered).dbid, Top(offered).key))
  {
    hide OfferAll, Round, TotalEvictable, Evictable, Top;
    FreshRoundPicksTop(p, env, m, s);
  }

  // ------------------------------------------------------------------ random policies

  /** Step t of a scan that began with the counter at n looks at a database with nothing to evict. */
  ghost predicate EmptyAt(p: Policy, dbs: seq<Db>, n: nat, t: nat)
    requires |dbs| > 0
  {
    Evictable(p, dbs[Visited(n, t, |dbs|)]) == {}
  }

  /**
   * The random choice takes its key from the first database that has something to evict, counting from where the last
   * choice stopped at n, and finds none exactly when none of the databases visited has anything. t is the step it
   * stops at.
   */
  lemma {:induction false} RandomPickVisits(p: Policy, env: Env, s: Search, n: nat, i: nat) returns (t: nat)
    requires 0 < |s.dbs| < U32 && i <= |s.dbs| && s.nextDb == (n + i) % U32 && env.Draws(p)
    ensures i <= t <= |s.dbs|
    ensures var (v, s1) := RandomPick(p, env, s, i);
      && (v.None? ==> t == |s.dbs| && s1 == s.(nextDb := (n + t) % U32))
      && (v.None? <==> forall u: nat :: i < u <= |s.dbs| ==> EmptyAt(p, s.dbs, n, u))
      && (v.Some? ==>
        && i < t && v.value.0 == Visited(n, t, |s.dbs|) && v.value.1 in Evictable(p, s.dbs[v.value.0])
        && s1 == s.(nextDb := (n + t) % U32, rounds := s.rounds + 1)
        && !EmptyAt(p, s.dbs, n, t))
      && forall u: nat :: i < u < t ==> EmptyAt(p, s.dbs, n, u)
    decreases |s.dbs| - i
  {
    hide Evictable, EmptyAt, Visited, Env.Draws, RandomPick;
    t := i;
    RandomStep(p, env, s, n, i);
    if i < |s.dbs| {
      if EmptyAt(p, s.dbs, n, i + 1) {
        t := RandomPickVisits(p, env, s.(nextDb := (n + (i + 1)) % U32), n, i + 1);
      } else {
        PickedFits(p, env, s, n, i + 1);
        t := i + 1;
      }
    }
  }

  lemma {:induction false} RandomPickStep(p: Policy, env: Env, s: Search, i: nat)
    requires i <= |s.dbs|
    ensures RandomPick(p, env, s, i) ==
            if i == |s.dbs| then (None, s)
            else
              var next := (s.nextDb + 1) % U32;
              var j := next % |s.dbs|;
              if Evictable(p, s.dbs[j]) != {} then
                (Some((j, env.pick(s.rounds, j, s.dbs[j]))), s.(nextDb := next, rounds := s.rounds + 1))
              else RandomPick(p, env, s.(nextDb := next), i + 1)
  {
  }

  lemma {:induction false} RandomStep(p: Policy, env: Env, s: Search, n: nat, i: nat)
    requires 0 < |s.dbs| && i <= |s.dbs| && s.nextDb == (n + i) % U32
    ensures RandomPick(p, env, s, i) ==
            if i == |s.dbs| then (None, s)
            else
              var next := (n + (i + 1)) % U32;
              var j := Visited(n, i + 1, |s.dbs|);
              if EmptyAt(p, s.dbs, n, i + 1) then RandomPick(p, env, s.(nextDb := next), i + 1)
              else (Some((j, env.pick(s.rounds, j, s.dbs[j]))), s.(nextDb := next, rounds := s.rounds + 1))
  {
    hide Evictable, RandomPick;
    RandomPickStep(p, env, s, i);
    if i < |s.dbs| {
      ModStep(n + i, U32);
    }
  }

  lemma {:induction false} PickedFits(p: Policy, env: Env, s: Search, n: nat, t: nat)
    requires env.Draws(p) && |s.dbs| > 0 && !EmptyAt(p, s.dbs, n, t)
    ensures var j := Visited(n, t, |s.dbs|);
      env.pick(s.rounds, j, s.dbs[j]) in Evictable(p, s.dbs[j])
  {
    hide Evictable;
  }

  // ------------------------------------------------------------------ any policy

  /** What every search keeps: well-formed data, and a pool in order that names existing databases. */
  ghost predicate Sound(s: Search) {
    AllWellFormed(s.dbs) && AllInDb(s.dbs, s.pool) && InOrder(s.pool) && 0 < |s.dbs| < U32 && s.nextDb < U32
  }

  /**
   * A search finds a key that can be evicted; it finds none exactly when there is none, except that a random policy
   * whose counter wraps during its scan may miss some.
   */
  lemma {:induction false} NextVictimFinds(p: Policy, env: Env, m: Moment, s: Search)
    requires env.Draws(p) && Sound(s) && !p.NoEviction?
    ensures var (v, s1) := NextVictim(p, env, m, s);
      && (v.Some? ==> v.value.0 < |s.dbs| && v.value.1 in Evictable(p, s.dbs[v.value.0]))
      && (TotalEvictable(p, s.dbs) == 0 ==> v.None?)
      && (v.None? ==> TotalEvictable(p, s.dbs) == 0 || (p.Random() && !ScanComplete(s.nextDb, |s.dbs|)))
      && s1.dbs == s.dbs && Sound(s1)
  {
    hide Evictable, TotalEvictable, ScanComplete;
    if p.UsesPool() {
      PickFinds(p, env, m, s);
      PickKeepsPool(p, env, m, s);
      PickKeepsOrder(p, env, m, s);
    } else {
      RandomFinds(p, env, s);
    }
  }

  lemma {:induction false} PickKeepsPool(p: Policy, env: Env, m: Moment, s: Search)
    requires AllInDb(s.dbs, s.pool)
    ensures AllInDb(s.dbs, PoolPick(p, env, m, s).1.pool)
  {
    hide Evictable, TotalEvictable;
    RoundKeepsPool(p, env, m, s);
    RoundKeepsPool(p, env, m, OneRound(p, env, m, s).1);
  }

  lemma {:induction false} PickKeepsOrder(p: Policy, env: Env, m: Moment, s: Search)
    requires InOrder(s.pool)
    ensures InOrder(PoolPick(p, env, m, s).1.pool)
  {
    hide Evictable, TotalEvictable, OneRound, InOrder;
    RoundKeepsOrder(p, env, m, s);
    RoundKeepsOrder(p, env, m, OneRound(p, env, m, s).1);
  }

  lemma {:induction false} RoundKeepsOrder(p: Policy, env: Env, m: Moment, s: Search)
    requires InOrder(s.pool)
    ensures InOrder(OneRound(p, env, m, s).1.pool)
  {
    hide OfferAll, Round, Evictable;
    OffersKeepOrder(s.pool, Round(p, env, m, s.dbs, s.rounds));
  }

  lemma {:induction false} RoundKeepsPool(p: Policy, env: Env, m: Moment, s: Search)
    requires AllInDb(s.dbs, s.pool)
    ensures AllInDb(s.dbs, OneRound(p, env, m, s).1.pool)
    ensures AllInDb(s.dbs, OfferAll(s.pool, Round(p, env, m, s.dbs, s.rounds)))
  {
    hide OfferAll, RoundUpTo;
    var offered := Round(p, env, m, s.dbs, s.rounds);
    var filled := OfferAll(s.pool, offered);
    forall i | 0 <= i < |filled| ensures filled[i].dbid < |s.dbs| {
      OfferAllMembers(s.pool, offered, filled[i]);
      if filled[i] in offered {
        RoundMembers(p, env, m, s.dbs, s.rounds, |s.dbs|, filled[i]);
      }
    }
  }

  lemma {:induction false} RandomFinds(p: Policy, env: Env, s: Search)
    requires env.Draws(p) && Sound(s)
    ensures var (v, s1) := RandomPick(p, env, s, 0);
      && (v.Some? ==> v.value.0 < |s.dbs| && v.value.1 in Evictable(p, s.dbs[v.value.0]))
      && (TotalEvictable(p, s.dbs) == 0 ==> v.None?)
      && (v.None? ==> TotalEvictable(p, s.dbs) == 0 || !ScanComplete(s.nextDb, |s.dbs|))
      && s1.dbs == s.dbs && Sound(s1)
  {
    hide Evictable, TotalEvictable, ScanComplete, Visited, Misses, RandomPick;
    var t := RandomPickVisits(p, env, s, s.nextDb, 0);
    TotalZero(p, s.dbs);
    if ScanComplete(s.nextDb, |s.dbs|) {
      CompleteScanFinds(p, env, s);
    }
    MissesMeans(p, env, s);
  }

  /** The random choice finds nothing although some key could be evicted. */
  ghost predicate Misses(p: Policy, env: Env, s: Search) {
    RandomPick(p, env, s, 0).0.None? && TotalEvictable(p, s.dbs) > 0
  }

  lemma {:induction false} MissesMeans(p: Policy, env: Env, s: Search)
    ensures Misses(p, env, s) <==> RandomPick(p, env, s, 0).0.None? && TotalEvictable(p, s.dbs) > 0
  {
    hide RandomPick, TotalEvictable;
  }

  lemma {:induction false} CompleteScanFinds(p: Policy, env: Env, s: Search)
    requires env.Draws(p) && 0 < |s.dbs| < U32 && s.nextDb < U32 && ScanComplete(s.nextDb, |s.dbs|)
    ensures !Misses(p, env, s)
  {
    hide Evictable, TotalEvictable, ScanComplete, Visited, RandomPick;
    var t := RandomPickVisits(p, env, s, s.nextDb, 0);
    TotalZero(p, s.dbs);
    if RandomPick(p, env, s, 0).0.None? {
      forall j: nat | j < |s.dbs| ensures Evictable(p, s.dbs[j]) == {} {
        VisitsWhenComplete(s.nextDb, |s.dbs|, j);
        var u :| 1 <= u <= |s.dbs| && Visited(s.nextDb, u, |s.dbs|) == j;
        assert EmptyAt(p, s.dbs, s.nextDb, u);
      }
    }
  }

  /** One key with an expire in database j, and nothing in the others. */
  function OnlyIn(dbnum: nat, j: nat): (dbs: seq<Db>)
    ensures |dbs| == dbnum
  {
    seq(dbnum, i => if i == j then Db(map[[] := Obj(0, [])], map[[] := 0]) else Db(map[], map[]))
  }

  lemma {:induction false} OnlyInEvictable(p: Policy, dbnum: nat, j: nat)
    requires j < dbnum
    ensures AllWellFormed(OnlyIn(dbnum, j)) && TotalEvictable(p, OnlyIn(dbnum, j)) > 0
    ensures forall i :: 0 <= i < dbnum && i != j ==> Evictable(p, OnlyIn(dbnum, j)[i]) == {}
  {
    hide TotalEvictable;
    TotalZero(p, OnlyIn(dbnum, j));
    var key: Bytes := [];
    assert key in Evictable(p, OnlyIn(dbnum, j)[j]);
  }

  /** An incomplete scan leaves a database out, and when that is the only one with keys it finds nothing. */
  lemma {:induction false} IncompleteScanMisses(p: Policy, env: Env, n: nat, dbnum: nat) returns (s: Search)
    requires env.Draws(p) && 0 < dbnum < U32 && n < U32 && !ScanComplete(n, dbnum)
    ensures |s.dbs| == dbnum && s.nextDb == n && Sound(s) && Misses(p, env, s)
  {
    hide Evictable, TotalEvictable, ScanComplete, Visited, RandomPick, OnlyIn;
    SkippedWhenIncomplete(n, dbnum, 1);
    var j := RandomScan.Skipped(n, dbnum);
    s := Search(OnlyIn(dbnum, j), [], 0, n);
    OnlyInEvictable(p, dbnum, j);
    forall u: nat | 0 < u <= dbnum ensures EmptyAt(p, s.dbs, n, u) {
      SkippedWhenIncomplete(n, dbnum, u);
    }
    var t := RandomPickVisits(p, env, s, n, 0);
  }

  /**
   * The random policies never report that nothing is left while something is, whatever the databases hold, exactly
   * when the counter they start from gives a complete scan.
   */
  lemma {:induction false} NeverMissesIff(p: Policy, env: Env, n: nat, dbnum: nat)
    requires env.Draws(p) && 0 < dbnum < U32 && n < U32
    ensures (forall s: Search :: |s.dbs| == dbnum && s.nextDb == n ==> !Misses(p, env, s)) <==> ScanComplete(n, dbnum)
    ensures (exists s: Search :: |s.dbs| == dbnum && s.nextDb == n && Sound(s) && Misses(p, env, s)) <==>
            !ScanComplete(n, dbnum)
  {
    hide ScanComplete, Misses, Sound;
    if ScanComplete(n, dbnum) {
      forall s: Search | |s.dbs| == dbnum && s.nextDb == n ensures !Misses(p, env, s) {
        CompleteScanFinds(p, env, s);
      }
    } else {
      var s := IncompleteScanMisses(p, env, n, dbnum);
    }
  }

  /** What then comes of it: the cycle gives up at once, over its limit and with keys left that it could evict. */
  lemma {:induction false} MissesEndsTheCycle(c: Cycle)
    requires c.p.Random() && Misses(c.p, c.env, c.s) && Over(c.env, c.maxmemory, c.t0)
    requires !WaitSucceeds(c.env, c.maxmemory, c.t0, c.patience)
    ensures c.Ends(true, 0, NothingLeft, RandomPick(c.p, c.env, c.s, 0).1) && TotalEvictable(c.p, c.s.dbs) > 0
  {
    hide RandomPick, TotalEvictable, WaitSucceeds;
  }

  // ------------------------------------------------------------------ runs of passes

  /**
   * Keys may have gone, but only such as the policy may evict; those that remain have the object and the expire they
   * had.
   */
  ghost predicate Remains(p: Policy, db: Db, before: Db) {
    && db.dict.Keys <= before.dict.Keys && (forall k :: k in db.dict ==> db.dict[k] == before.dict[k])
    && (forall k :: k in before.dict && k !in db.dict ==> k in Evictable(p, before))
    && db.expires.Keys == before.expires.Keys * db.dict.Keys
    && forall k :: k in db.expires ==> db.expires[k] == before.expires[k]
  }

  ghost predicate AllRemain(p: Policy, dbs: seq<Db>, before: seq<Db>) {
    |dbs| == |before| && forall i :: 0 <= i < |dbs| ==> Remains(p, dbs[i], before[i])
  }

  function TotalKeys(dbs: seq<Db>): (n: nat) {
    if dbs == [] then 0 else TotalKeys(dbs[..|dbs| - 1]) + |dbs[|dbs| - 1].dict|
  }

  lemma {:induction false} TotalKeysStep(dbs: seq<Db>)
    requires dbs != []
    ensures TotalKeys(dbs) == TotalKeys(dbs[..|dbs| - 1]) + |dbs[|dbs| - 1].dict|
  {
  }

  lemma {:induction false} RemainsReflexive(p: Policy, dbs: seq<Db>)
    requires AllWellFormed(dbs)
    ensures AllRemain(p, dbs, dbs)
  {
    forall i | 0 <= i < |dbs| ensures Remains(p, dbs[i], dbs[i]) {
      assert WellFormed(dbs[i]);
    }
  }

  lemma {:induction false} RemovedRemains(p: Policy, db: Db, before: Db, key: Bytes)
    requires Remains(p, db, before) && key in Evictable(p, db) && WellFormed(db)
    ensures Remains(p, Removed(db, key), before) && WellFormed(Removed(db, key))
  {
  }

  lemma {:induction false} DeleteRemains(p: Policy, dbs: seq<Db>, before: seq<Db>, v: Victim)
    requires AllRemain(p, dbs, before) && AllWellFormed(dbs) && v.0 < |dbs| && v.1 in Evictable(p, dbs[v.0])
    ensures AllRemain(p, Delete(dbs, v), before) && AllWellFormed(Delete(dbs, v))
  {
    hide Remains, WellFormed, Removed, Evictable;
    RemovedRemains(p, dbs[v.0], before[v.0], v.1);
  }

  lemma {:induction false} DeleteCounts(p: Policy, dbs: seq<Db>, i: nat, key: Bytes)
    requires AllWellFormed(dbs) && i < |dbs| && key in Evictable(p, dbs[i])
    ensures TotalKeys(dbs[i := Removed(dbs[i], key)]) == TotalKeys(dbs) - 1
  {
    hide TotalKeys, Evictable, Removed, WellFormed;
    var n := |dbs| - 1;
    var dbs' := dbs[i := Removed(dbs[i], key)];
    TotalKeysStep(dbs);
    TotalKeysStep(dbs');
    if i < n {
      DeleteCounts(p, dbs[..n], i, key);
      assert dbs'[..n] == dbs[..n][i := Removed(dbs[..n][i], key)];
    } else {
      assert dbs'[..n] == dbs[..n];
      RemovedSize(p, dbs[n], key);
    }
  }

  lemma {:induction false} RemovedSize(p: Policy, db: Db, key: Bytes)
    requires WellFormed(db) && key in Evictable(p, db)
    ensures |Removed(db, key).dict| == |db.dict| - 1
  {
    var m := db.dict;
    assert (m - {key}).Keys == m.Keys - {key};
    assert |(m - {key}).Keys| == |m.Keys| - 1;
    assert |m - {key}| == |(m - {key}).Keys|;
  }

  /**
   * What k passes leave: exactly k keys fewer, all of them evictable; a key that the policy may not evict, and every
   * object and expire that is left, is as it was.
   */
  lemma {:induction false} PassesRemoveOnlyEvictable(p: Policy, env: Env, m: Moment, s: Search, k: nat)
    requires env.Draws(p) && Sound(s) && !p.NoEviction? && Passes(p, env, m, s, k).Some?
    ensures var s1 := Passes(p, env, m, s, k).value;
      && Sound(s1) && AllRemain(p, s1.dbs, s.dbs)
      && TotalEvictable(p, s1.dbs) + k == TotalEvictable(p, s.dbs)
      && TotalKeys(s1.dbs) + k == TotalKeys(s.dbs)
  {
    hide Evictable, TotalEvictable, TotalKeys, NextVictim, Remains, WellFormed, ScanComplete;
    if k == 0 {
      RemainsReflexive(p, s.dbs);
    } else {
      PassesRemoveOnlyEvictable(p, env, m, s, k - 1);
      var s1 := Passes(p, env, m, s, k - 1).value;
      NextVictimFinds(p, env, m, s1);
      var (v, s2) := NextVictim(p, env, m, s1);
      DeleteRemains(p, s2.dbs, s.dbs, v.value);
      TotalDecreases(p, s2.dbs, v.value.0, v.value.1);
      DeleteCounts(p, s2.dbs, v.value.0, v.value.1);
    }
  }

  /** So does the search of every pass of a run, as long as something is left to evict. */
  lemma {:induction false} EveryVictimOutranksDraw(p: Policy, env: Env, m: Moment, s: Search, k: nat)
    requires env.Draws(p) && Sound(s) && p.UsesPool() && Passes(p, env, m, s, k).Some?
    requires TotalEvictable(p, s.dbs) > k
    ensures PicksBest(p, env, m, Passes(p, env, m, s, k).value)
    ensures Passes(p, env, m, s, k + 1).Some?
  {
    hide Evictable, TotalEvictable, PoolPick, RandomPick, PicksBest;
    PassesRemoveOnlyEvictable(p, env, m, s, k);
    VictimOutranksDraw(p, env, m, Passes(p, env, m, s, k).value);
    NextVictimFinds(p, env, m, Passes(p, env, m, s, k).value);
  }

  lemma {:induction false} TotalDecreasesHere(p: Policy, dbs: seq<Db>, v: Victim)
    requires v.0 < |dbs| && v.1 in Evictable(p, dbs[v.0])
    ensures TotalEvictable(p, Delete(dbs, v)) == TotalEvictable(p, dbs) - 1
  {
    hide Evictable, TotalEvictable;
    TotalDecreases(p, dbs, v.0, v.1);
  }

  /** No key can be evicted, or the counter that a random policy started its last scan with is one that skips some. */
  ghost predicate NothingToFind(c: Cycle, k: nat, s1: Search) {
    || TotalEvictable(c.p, s1.dbs) == 0
    || (c.p.Random() && c.Passed(k).Some? && 0 < |s1.dbs| && c.Passed(k).value.nextDb < U32 &&
        !ScanComplete(c.Passed(k).value.nextDb, |s1.dbs|))
  }

  /** What every cycle promises, however it ends. */
  lemma {:induction false} CycleKeeps(c: Cycle, safe: bool, k: nat, how: Exit, s1: Search)
    requires c.env.Draws(c.p) && Sound(c.s) && c.Ends(safe, k, how, s1)
    ensures AllRemain(c.p, s1.dbs, c.s.dbs) && TotalKeys(s1.dbs) + k == TotalKeys(c.s.dbs)
    ensures TotalEvictable(c.p, s1.dbs) + k == TotalEvictable(c.p, c.s.dbs)
    ensures how.NothingLeft? || how.SeenFreed? ==> NothingToFind(c, k, s1)
    ensures how.Freed? && Quiet(c.env, c.t0, k) ==> !Over(c.env, c.maxmemory, Seen(c.t0, k))
    ensures how.Enough? ==> !Over(c.env, c.maxmemory, Seen(c.t0, k))
  {
    hide Evictable, TotalEvictable, TotalKeys, Passes, NextVictim, AllRemain, ScanComplete, Quiet;
    if c.Passed(k).Some? && !c.p.NoEviction? {
      PassesRemoveOnlyEvictable(c.p, c.env, c.m, c.s, k);
      NextVictimFinds(c.p, c.env, c.m, c.Passed(k).value);
      if Quiet(c.env, c.t0, k) {
        FreedEnough(c.env, c.maxmemory, c.t0, k);
      }
    }
    if k == 0 && s1 == c.s {
      RemainsReflexive(c.p, c.s.dbs);
    }
  }

  /**
   * The cycle in plain numbers. It evicts only when there is a limit and the first reading is over it, and then does
   * evict unless it may not or finds nothing; it never goes past a sixteenth deletion when time is up or memory is found
   * within the limit; and when only deletions change memory, it evicts no key once memory is within the limit.
   */
  lemma {:induction false} CycleInNumbers(c: Cycle, safe: bool, k: nat, how: Exit, s1: Search)
    requires c.Ends(safe, k, how, s1)
    ensures var over := c.maxmemory > 0 && c.env.used(c.t0) > c.maxmemory + c.env.overhead(c.t0);
      && (how.Skipped? <==> !safe) && (how.WithinLimit? <==> safe && !over)
      && (how.Forbidden? <==> safe && over && c.p.NoEviction?)
      && (k > 0 ==> safe && over && !c.p.NoEviction?)
      && (safe && over && !c.p.NoEviction? ==> k > 0 || how.NothingLeft? || how.SeenFreed?)
    ensures how.Enough? || how.TimeUp? ==> k > 0 && k % 16 == 0
    ensures how.TimeUp? ==> c.env.late(Seen(c.t0, k))
    ensures how.Enough? ==> c.lazyfree && WithinAt(c.env, c.maxmemory, Seen(c.t0, k))
    ensures forall j: nat :: 0 < j < k && j % 16 == 0 ==> MayGoOn(c.env, c.maxmemory, c.lazyfree, Seen(c.t0, j))
    ensures Quiet(c.env, c.t0, k) ==>
      && (how.Freed? ==> WithinAt(c.env, c.maxmemory, Seen(c.t0, k)))
      && forall j: nat :: j < k ==> !WithinAt(c.env, c.maxmemory, Seen(c.t0, j))
  {
    hide Over, Passes, NextVictim, FreedSum, WaitSucceeds, Excess, Quiet;
    OverInNumbers(c.env, c.maxmemory, c.t0);
    OverInNumbers(c.env, c.maxmemory, Seen(c.t0, k));
    NothingFreedYet(c.env, c.t0);
    forall j: nat | j < k
      ensures j > 0 && j % 16 == 0 ==> MayGoOn(c.env, c.maxmemory, c.lazyfree, Seen(c.t0, j))
      ensures Quiet(c.env, c.t0, k) ==> !WithinAt(c.env, c.maxmemory, Seen(c.t0, j))
    {
      assert c.Continues(j);
      OverInNumbers(c.env, c.maxmemory, Seen(c.t0, j));
      if Quiet(c.env, c.t0, k) {
        QuietBefore(c.env, c.t0, j, k);
        FreedEnough(c.env, c.maxmemory, c.t0, j);
      }
    }
    if Quiet(c.env, c.t0, k) {
      FreedEnough(c.env, c.maxmemory, c.t0, k);
    }
  }

  lemma {:induction false} NothingFreedYet(env: Env, t0: nat)
    ensures FreedSum(env, t0, 0) == 0
  {
  }

  lemma {:induction false} QuietBefore(env: Env, t0: nat, j: nat, k: nat)
    requires Quiet(env, t0, k) && j <= k
    ensures Quiet(env, t0, j)
  {
  }
}
