/**
 * The keyspace with lazy expiry (db.c) as a state machine on maps, and the keyspace one would like to have, in which
 * expired keys are purged at once. Every command gives the same reply on both, and they look the same to a reader.
 * The server is a master that is not loading, with expiry active.
 */
module KeyspaceSpec {
  import opened Base

  /** A database index and a key of it. */
  type Slot = (nat, Bytes)

  /** The main dictionaries of all databases, and the times in the expires dictionaries. */
  datatype State<V> = State(dict: map<Slot, V>, expires: map<Slot, int>)
  {
    ghost predicate Inv() {
      expires.Keys <= dict.Keys
    }

    /** -1 when the key has no expire. */
    function GetExpire(k: Slot): int {
      if k in expires then expires[k] else -1
    }

    predicate Expired(k: Slot, now: int) {
      GetExpire(k) >= 0 && now > GetExpire(k)
    }

    function Remove(k: Slot): State<V> {
      State(dict - {k}, expires - {k})
    }

    function ExpireIfNeeded(k: Slot, now: int): State<V> {
      if Expired(k, now) then Remove(k) else this
    }

    /** A lookup deletes an expired key on its way; LOOKUP_NOEXPIRE only declines to return it. */
    function Lookup(k: Slot, now: int, noexpire: bool): (State<V>, Option<V>) {
      if k !in dict then (this, None)
      else if !Expired(k, now) then (this, Some(dict[k]))
      else (if noexpire then this else Remove(k), None)
    }

    function Add(k: Slot, v: V): State<V> {
      State(dict[k := v], expires)
    }

    function SetExpire(k: Slot, when: int): State<V> {
      State(dict, expires[k := when])
    }

    function CopyExpire(k: Slot, when: int): State<V> {
      if when != -1 then SetExpire(k, when) else this
    }
  }

  /** What the caller of setKey already knows about the key. */
  datatype Known = Unknown | Exists | Missing | AddOrUpdate

  /** The program stops when a caller's claim about the key is wrong. */
  predicate ClaimHolds<V>(s: State<V>, k: Slot, known: Known) {
    (known.Exists? ==> k in s.dict) && (known.Missing? ==> k !in s.dict)
  }

  function SetKey<V>(s: State<V>, k: Slot, v: V, known: Known, keepttl: bool, now: int): (r: State<V>)
    ensures s.Inv() ==> r.Inv()
  {
    var s1 := if known.Unknown? then s.Lookup(k, now, false).0 else s;
    State(s1.dict[k := v], if keepttl then s1.expires else s1.expires - {k})
  }

  datatype Command<V> =
    | Get(k: Slot, noexpire: bool)
    | Set(k: Slot, v: V, keepttl: bool)
    | Expire(k: Slot, when: int)
    | Del(keys: seq<Slot>)
    | Rename(db: nat, src: Bytes, dst: Bytes, nx: bool)
    | Move(key: Bytes, srcdb: nat, dstdb: nat, dbnum: nat)

  datatype Reply<V> = Found(v: Option<V>) | Done | Count(n: nat) | NoSuchKey | SameObject | OutOfRange

  function DelKeys<V>(s: State<V>, keys: seq<Slot>, now: int): (r: (State<V>, nat))
    ensures s.Inv() ==> r.0.Inv()
  {
    if keys == [] then (s, 0)
    else
      var (s1, n) := DelKeys(s, keys[..|keys| - 1], now);
      var k := keys[|keys| - 1];
      var s2 := s1.ExpireIfNeeded(k, now);
      if k in s2.dict then (s2.Remove(k), n + 1) else (s2, n)
  }

  function RenameKey<V>(s: State<V>, a: Slot, b: Slot, nx: bool, now: int): (r: (State<V>, Reply<V>))
    ensures s.Inv() ==> r.0.Inv()
  {
    var (s1, o) := s.Lookup(a, now, false);
    if o.None? then (s1, NoSuchKey)
    else if a == b then (s1, if nx then Count(0) else Done)
    else RenameFound(s1, a, b, o.value, s1.GetExpire(a), nx, now)
  }

  /** The rest of RENAME, with the source's value and expire in hand. */
  function RenameFound<V>(s: State<V>, a: Slot, b: Slot, v: V, expire: int, nx: bool, now: int): (r: (State<V>, Reply<V>))
    ensures s.Inv() ==> r.0.Inv()
  {
    var (s2, d) := s.Lookup(b, now, false);
    if d.Some? && nx then (s2, Count(0))
    else
      var s3 := if d.Some? then s2.Remove(b) else s2;
      (MoveEntry(s3, a, b, v, expire), if nx then Count(1) else Done)
  }

  function MoveKey<V>(s: State<V>, a: Slot, b: Slot, dbnum: nat, now: int): (r: (State<V>, Reply<V>))
    ensures s.Inv() ==> r.0.Inv()
  {
    if b.0 >= dbnum then (s, OutOfRange)
    else if a.0 == b.0 then (s, SameObject)
    else
      var (s1, o) := s.Lookup(a, now, false);
      if o.None? then (s1, Count(0))
      else
        var expire := s1.GetExpire(a);
        var (s2, d) := s1.Lookup(b, now, false);
        if d.Some? then (s2, Count(0))
        else (MoveEntry(s2, a, b, o.value, expire), Count(1))
  }

  function Step<V>(s: State<V>, c: Command<V>, now: int): (r: (State<V>, Reply<V>))
    ensures s.Inv() ==> r.0.Inv()
  {
    match c
    case Get(k, noexpire) => var (s1, v) := s.Lookup(k, now, noexpire); (s1, Found(v))
    case Set(k, v, keepttl) => (SetKey(s, k, v, Unknown, keepttl, now), Done)
    case Expire(k, when) =>
      var (s1, v) := s.Lookup(k, now, false);
      if v.None? then (s1, Count(0)) else (s1.SetExpire(k, when), Count(1))
    case Del(keys) => var (s1, n) := DelKeys(s, keys, now); (s1, Count(n))
    case Rename(db, src, dst, nx) => RenameKey(s, (db, src), (db, dst), nx, now)
    case Move(key, srcdb, dstdb, dbnum) => MoveKey(s, (srcdb, key), (dstdb, key), dbnum, now)
  }

  // ------------------------------------------------------------------ the eager keyspace

  /** Each key with its value and its expire, -1 for none. */
  type Eager<V> = map<Slot, (V, int)>

  function Purge<V>(e: Eager<V>, now: int): (r: Eager<V>) {
    map k | k in e && !(e[k].1 >= 0 && now > e[k].1) :: e[k]
  }

  function EagerMoveEntry<V>(e: Eager<V>, a: Slot, b: Slot): (r: Eager<V>)
    requires a in e
  {
    e[b := e[a]] - {a}
  }

  function PresentIn<V>(e: Eager<V>, keys: seq<Slot>): (r: (Eager<V>, nat)) {
    if keys == [] then (e, 0)
    else
      var (e1, n) := PresentIn(e, keys[..|keys| - 1]);
      var k := keys[|keys| - 1];
      (e1 - {k}, if k in e1 then n + 1 else n)
  }

  /** The commands as their documentation describes them, on a map without expired keys. */
  function EagerOp<V>(e: Eager<V>, c: Command<V>): (r: (Eager<V>, Reply<V>)) {
    match c
    case Get(k, _) => (e, Found(if k in e then Some(e[k].0) else None))
    case Set(k, v, keepttl) => (e[k := (v, if keepttl && k in e then e[k].1 else -1)], Done)
    case Expire(k, when) => if k in e then (e[k := (e[k].0, when)], Count(1)) else (e, Count(0))
    case Del(keys) => var (e1, n) := PresentIn(e, keys); (e1, Count(n))
    case Rename(db, src, dst, nx) =>
      var a, b := (db, src), (db, dst);
      if a !in e then (e, NoSuchKey)
      else if nx then
        if b in e then (e, Count(0)) else (EagerMoveEntry(e, a, b), Count(1))
      else if a == b then (e, Done) else (EagerMoveEntry(e, a, b), Done)
    case Move(key, srcdb, dstdb, dbnum) =>
      var a, b := (srcdb, key), (dstdb, key);
      if dstdb >= dbnum then (e, OutOfRange)
      else if srcdb == dstdb then (e, SameObject)
      else if a !in e || b in e then (e, Count(0))
      else (EagerMoveEntry(e, a, b), Count(1))
  }

  function EagerStep<V>(e: Eager<V>, c: Command<V>, now: int): (r: (Eager<V>, Reply<V>)) {
    var (e1, reply) := EagerOp(Purge(e, now), c);
    (Purge(e1, now), reply)
  }

  // ------------------------------------------------------------------ refinement

  /** What a reader can see: the keys that are not expired. */
  function View<V>(s: State<V>, now: int): (r: Eager<V>) {
    map k | k in s.dict && !s.Expired(k, now) :: (s.dict[k], s.GetExpire(k))
  }

  lemma ViewIsPurged<V>(s: State<V>, now: int)
    ensures Purge(View(s, now), now) == View(s, now)
  {
  }

  /** As time passes, keys drop out of the view exactly as they are purged from the eager map. */
  lemma TimePasses<V>(s: State<V>, now: int, later: int)
    requires now <= later
    ensures View(s, later) == Purge(View(s, now), later)
  {
  }

  /** Deleting an expired key, or leaving it where it is, cannot be told apart. */
  lemma LookupKeepsView<V>(s: State<V>, k: Slot, now: int, noexpire: bool)
    requires s.Inv()
    ensures var (s1, v) := s.Lookup(k, now, noexpire);
            s1.Inv() && View(s1, now) == View(s, now) && (k in View(s, now) <==> v.Some?) &&
            (v.Some? ==> s1 == s && View(s, now)[k].0 == v.value)
  {
  }

  lemma RemoveIsRemove<V>(s: State<V>, k: Slot, now: int)
    ensures View(s.Remove(k), now) == View(s, now) - {k}
  {
  }

  lemma ExpireKeepsView<V>(s: State<V>, k: Slot, now: int)
    requires s.Inv()
    ensures View(s.ExpireIfNeeded(k, now), now) == View(s, now) && s.ExpireIfNeeded(k, now).Inv()
    ensures k in View(s, now) <==> k in s.ExpireIfNeeded(k, now).dict
  {
  }

  lemma {:induction false} DelRefines<V>(s: State<V>, keys: seq<Slot>, now: int)
    requires s.Inv()
    ensures View(DelKeys(s, keys, now).0, now) == PresentIn(View(s, now), keys).0
    ensures DelKeys(s, keys, now).1 == PresentIn(View(s, now), keys).1
  {
    hide View, State.Remove, State.ExpireIfNeeded;
    if keys != [] {
      var k := keys[|keys| - 1];
      DelRefines(s, keys[..|keys| - 1], now);
      var s1 := DelKeys(s, keys[..|keys| - 1], now).0;
      ExpireKeepsView(s1, k, now);
      RemoveIsRemove(s1.ExpireIfNeeded(k, now), k, now);
      if k !in View(s1, now) {
        assert View(s1, now) - {k} == View(s1, now);
      }
    }
  }

  /** Writing a value under a key: visible unless the key keeps an expire that has passed. */
  lemma AssignView<V>(s: State<V>, k: Slot, v: V, keepttl: bool, now: int)
    requires s.Inv()
    ensures View(State(s.dict[k := v], if keepttl then s.expires else s.expires - {k}), now) ==
            if keepttl && s.Expired(k, now) then View(s, now)
            else View(s, now)[k := (v, if keepttl then s.GetExpire(k) else -1)]
  {
  }

  /**
   * Setting a key without knowing whether it exists refines the eager assignment; a caller that says it knows does
   * too, unless it keeps the expire of a key that has already expired, which leaves the new value invisible.
   */
  lemma SetRefinesIff<V>(s: State<V>, k: Slot, v: V, known: Known, keepttl: bool, now: int)
    requires s.Inv() && ClaimHolds(s, k, known)
    ensures View(SetKey(s, k, v, known, keepttl, now), now) ==
            EagerStep(View(s, now), Set(k, v, keepttl), now).0 <==>
            known.Unknown? || !keepttl || !s.Expired(k, now)
  {
    hide View, Purge;
    var s1 := if known.Unknown? then s.Lookup(k, now, false).0 else s;
    LookupKeepsView(s, k, now, false);
    AssignView(s1, k, v, keepttl, now);
    EagerSet(s, k, v, keepttl, now);
    LookupExpire(s, k, now);
  }

  /** A key keeps its visible expire under an assignment, or gets none. */
  lemma EagerSet<V>(s: State<V>, k: Slot, v: V, keepttl: bool, now: int)
    requires s.Inv()
    ensures EagerStep(View(s, now), Set(k, v, keepttl), now).0 ==
            View(s, now)[k := (v, if keepttl && !s.Expired(k, now) then s.GetExpire(k) else -1)]
  {
    ViewIsPurged(s, now);
  }

  lemma LookupExpire<V>(s: State<V>, k: Slot, now: int)
    requires s.Inv()
    ensures var s1 := s.Lookup(k, now, false).0;
            !s1.Expired(k, now) && s1.GetExpire(k) == if s.Expired(k, now) then -1 else s.GetExpire(k)
    ensures s.Expired(k, now) ==> k !in View(s, now)
  {
  }

  lemma RenameRefines<V>(s: State<V>, a: Slot, b: Slot, nx: bool, now: int)
    requires s.Inv() && a.0 == b.0
    ensures var (s1, reply) := RenameKey(s, a, b, nx, now);
            (View(s1, now), reply) == EagerOp(View(s, now), Rename(a.0, a.1, b.1, nx))
  {
    hide View, State.Remove, State.Expired, State.GetExpire;
    LookupKeepsView(s, a, now, false);
    if a in View(s, now) && a != b {
      LookupKeepsView(s, b, now, false);
      var s2 := s.Lookup(b, now, false).0;
      if !(b in View(s, now) && nx) {
        MovedView(s, a, b, now);
      }
    }
  }

  lemma MoveRefines<V>(s: State<V>, a: Slot, b: Slot, dbnum: nat, now: int)
    requires s.Inv() && a.1 == b.1
    ensures var (s1, reply) := MoveKey(s, a, b, dbnum, now);
            (View(s1, now), reply) == EagerOp(View(s, now), Move(a.1, a.0, b.0, dbnum))
  {
    hide View, State.Remove, State.Expired, State.GetExpire;
    LookupKeepsView(s, a, now, false);
    if b.0 < dbnum && a.0 != b.0 && a in View(s, now) {
      LookupKeepsView(s, b, now, false);
      if b !in View(s, now) {
        MovedView(s, a, b, now);
      }
    }
  }

  /** The steps shared by RENAME and MOVE, once both keys have been looked up and the target is free. */
  function MoveEntry<V>(s: State<V>, a: Slot, b: Slot, v: V, expire: int): (r: State<V>) {
    s.Add(b, v).CopyExpire(b, expire).Remove(a)
  }

  lemma MovedView<V>(s: State<V>, a: Slot, b: Slot, now: int)
    requires s.Inv() && a != b && a in View(s, now)
    ensures var s2 := s.Lookup(b, now, false).0;
            var s3 := if b in View(s, now) then s2.Remove(b) else s2;
            View(MoveEntry(s3, a, b, s.dict[a], s.GetExpire(a)), now) == EagerMoveEntry(View(s, now), a, b)
  {
    var s2 := s.Lookup(b, now, false).0;
    var s3 := if b in View(s, now) then s2.Remove(b) else s2;
    LookupKeepsView(s, b, now, false);
    RemoveIsRemove(s2, b, now);
    assert b !in s3.dict && b !in s3.expires;
    assert a in s3.dict && s3.dict[a] == s.dict[a] && s3.GetExpire(a) == s.GetExpire(a);
    AddedView(s3, a, b, now);
  }

  lemma AddedView<V>(s: State<V>, a: Slot, b: Slot, now: int)
    requires a != b && b !in s.dict && b !in s.expires && a in s.dict && !s.Expired(a, now)
    ensures View(MoveEntry(s, a, b, s.dict[a], s.GetExpire(a)), now) ==
            View(s, now)[b := (s.dict[a], s.GetExpire(a))] - {a}
  {
  }

  /** Each command gives the reply of the eager keyspace and leaves what the eager keyspace would hold. */
  lemma StepRefines<V>(s: State<V>, c: Command<V>, now: int)
    requires s.Inv()
    ensures (View(Step(s, c, now).0, now), Step(s, c, now).1) == EagerStep(View(s, now), c, now)
  {
    hide View, Purge, DelKeys, RenameKey, MoveKey, SetKey, EagerMoveEntry;
    ViewIsPurged(s, now);
    ViewIsPurged(Step(s, c, now).0, now);
    match c
    case Get(k, noexpire) => LookupKeepsView(s, k, now, noexpire);
    case Set(k, v, keepttl) => SetRefinesIff(s, k, v, Unknown, keepttl, now);
    case Expire(k, when) => ExpireRefines(s, k, when, now);
    case Del(keys) => DelRefines(s, keys, now);
    case Rename(db, src, dst, nx) => RenameRefines(s, (db, src), (db, dst), nx, now);
    case Move(key, srcdb, dstdb, dbnum) => MoveRefines(s, (srcdb, key), (dstdb, key), dbnum, now);
  }

  lemma ExpireRefines<V>(s: State<V>, k: Slot, when: int, now: int)
    requires s.Inv()
    ensures (View(Step(s, Expire(k, when), now).0, now), Step(s, Expire(k, when), now).1) ==
            EagerStep(View(s, now), Expire(k, when), now)
  {
    hide View, Purge;
    LookupKeepsView(s, k, now, false);
    ViewIsPurged(s, now);
    if k in View(s, now) {
      SetExpireView(s, k, when, now);
    }
  }

  lemma SetExpireView<V>(s: State<V>, k: Slot, when: int, now: int)
    requires k in View(s, now)
    ensures View(s.SetExpire(k, when), now) == Purge(View(s, now)[k := (View(s, now)[k].0, when)], now)
  {
  }

  // ------------------------------------------------------------------ runs

  /** A command and the time at which it runs. */
  type Timed<V> = (Command<V>, int)

  function Run<V>(s: State<V>, cs: seq<Timed<V>>): (r: (State<V>, seq<Reply<V>>)) {
    if cs == [] then (s, [])
    else
      var (s1, replies) := Run(s, cs[..|cs| - 1]);
      var (s2, reply) := Step(s1, cs[|cs| - 1].0, cs[|cs| - 1].1);
      (s2, replies + [reply])
  }

  function EagerRun<V>(e: Eager<V>, cs: seq<Timed<V>>): (r: (Eager<V>, seq<Reply<V>>)) {
    if cs == [] then (e, [])
    else
      var (e1, replies) := EagerRun(e, cs[..|cs| - 1]);
      var (e2, reply) := EagerStep(e1, cs[|cs| - 1].0, cs[|cs| - 1].1);
      (e2, replies + [reply])
  }

  /** The clock does not go back during the run, which starts at time start. */
  ghost predicate ClockForward<V>(start: int, cs: seq<Timed<V>>) {
    && (forall i :: 0 <= i < |cs| ==> start <= cs[i].1)
    && (forall i, j :: 0 <= i < j < |cs| ==> cs[i].1 <= cs[j].1)
  }

  function LastTime<V>(start: int, cs: seq<Timed<V>>): int {
    if cs == [] then start else cs[|cs| - 1].1
  }

  /**
   * Lazy expiry refines eager expiry: over every run of commands, at any times that do not go back, all replies are
   * the same, and at the end both keyspaces show the same keys, values and expires.
   */
  lemma {:induction false} LazyRefinesEager<V>(s: State<V>, start: int, cs: seq<Timed<V>>)
    requires s.Inv() && ClockForward(start, cs)
    ensures Run(s, cs).0.Inv()
    ensures Run(s, cs).1 == EagerRun(View(s, start), cs).1
    ensures View(Run(s, cs).0, LastTime(start, cs)) == EagerRun(View(s, start), cs).0
  {
    hide View, Purge, EagerOp;
    if cs != [] {
      var init := cs[..|cs| - 1];
      var (c, now) := cs[|cs| - 1];
      LazyRefinesEager(s, start, init);
      var s1, before := Run(s, init).0, LastTime(start, init);
      assert before <= now;
      TimePasses(s1, before, now);
      StepRefines(s1, c, now);
      EagerStepPurges(View(s1, before), c, now);
    }
  }

  lemma EagerStepPurges<V>(e: Eager<V>, c: Command<V>, now: int)
    ensures EagerStep(Purge(e, now), c, now) == EagerStep(e, c, now)
  {
    hide EagerOp;
    assert Purge(Purge(e, now), now) == Purge(e, now);
  }
}
