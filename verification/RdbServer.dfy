/** Writing a dump and loading one into a dataset, as rdbSaveRio and rdbLoadRioWithLoadingCtx do on a stream. */
module RdbServer {
  import opened Base
  import opened RdbCodec
  import opened RdbIo
  import opened RdbValues
  import opened RdbLoad
  import opened RdbDump
  import KeyspaceSpec

  // ------------------------------------------------------------------ saving

  method SaveKeyValuePair(rdb: Rio, c: SaveConfig, r: Record)
    requires r.Storable(c.env)
    modifies rdb
    ensures rdb.buf == old(rdb.buf) + EncodeRecord(c, r)
  {
    hide EncodeString, EncodeObject, EncodeLen, EncodeTime, TypeOf, Storable;
    ghost var start := rdb.buf;
    if r.GetExpire() != -1 {
      var _ := SaveType(rdb, RDB_OPCODE_EXPIRETIME_MS);
      var _ := SaveMillisecondTime(rdb, r.GetExpire());
      AppendTwo(start, [RDB_OPCODE_EXPIRETIME_MS], EncodeTime(r.GetExpire()));
    }
    ghost var expire := EncodeExpire(r.GetExpire());
    assert rdb.buf == start + expire;
    if c.savelru {
      var _ := SaveType(rdb, RDB_OPCODE_IDLE);
      var _ := SaveLen(rdb, r.idle);
      AppendTwo(start + expire, [RDB_OPCODE_IDLE], EncodeLen(r.idle));
    }
    ghost var idle := EncodeIdle(c, r.idle);
    assert rdb.buf == start + expire + idle;
    if c.savelfu {
      var _ := SaveType(rdb, RDB_OPCODE_FREQ);
      var _ := rdb.Write([r.freq]);
      AppendTwo(start + expire + idle, [RDB_OPCODE_FREQ], [r.freq]);
    }
    ghost var freq := EncodeFreq(c, r.freq);
    assert rdb.buf == start + expire + idle + freq;
    SaveKeyValue(rdb, c, r);
    AppendFour(start, expire, idle, freq, EncodeKeyValue(c, r));
  }

  method SaveKeyValue(rdb: Rio, c: SaveConfig, r: Record)
    requires r.Storable(c.env)
    modifies rdb
    ensures rdb.buf == old(rdb.buf) + EncodeKeyValue(c, r)
  {
    hide EncodeString, EncodeObject, TypeOf, Storable;
    ghost var start := rdb.buf;
    var _ := SaveObjectType(rdb, r.value);
    var _ := SaveStringObject(rdb, c.env.z, RawString(r.key));
    var _ := SaveObject(rdb, c.env, r.value);
    AppendThree(start, [TypeOf(r.value)], EncodeString(c.env.z, r.key), EncodeObject(c.env, r.value));
  }

  lemma AppendThree(start: Bytes, a: Bytes, b: Bytes, c: Bytes)
    ensures start + a + b + c == start + (a + b + c)
  {
  }

  method SaveDb(rdb: Rio, c: SaveConfig, dbid: nat, db: Db)
    requires StorableDb(c.env, db) && dbid < RDB_LENERR
    modifies rdb
    ensures rdb.buf == old(rdb.buf) + EncodeDb(c, dbid, db)
  {
    hide EncodeRecord, EncodeLen, Distinct;
    if |db| == 0 {
      assert EncodeDb(c, dbid, db) == [];
      return;
    }
    ghost var start := rdb.buf;
    var _ := SaveType(rdb, RDB_OPCODE_SELECTDB);
    var _ := SaveLen(rdb, dbid);
    var _ := SaveType(rdb, RDB_OPCODE_RESIZEDB);
    var _ := SaveLen(rdb, |db|);
    var _ := SaveLen(rdb, ExpireCount(db));
    ghost var header := rdb.buf;
    var i := 0;
    assert db[0..] == db;
    while i < |db|
      invariant 0 <= i <= |db|
      invariant rdb.buf + EncodeRecords(c, db[i..]) == header + EncodeRecords(c, db)
    {
      ghost var before := rdb.buf;
      SaveKeyValuePair(rdb, c, db[i]);
      assert db[i..][1..] == db[i + 1..];
      AppendTwo(before, EncodeRecord(c, db[i]), EncodeRecords(c, db[i + 1..]));
      i := i + 1;
    }
    assert EncodeRecords(c, db[i..]) == [];
    DbLayout(c, start, dbid, db);
  }

  lemma {:induction false} DbLayout(c: SaveConfig, start: Bytes, dbid: nat, db: Db)
    requires StorableDb(c.env, db) && db != [] && dbid < RDB_LENERR
    ensures start + [RDB_OPCODE_SELECTDB] + EncodeLen(dbid) + [RDB_OPCODE_RESIZEDB] + EncodeLen(|db|) +
      EncodeLen(ExpireCount(db)) + EncodeRecords(c, db) == start + EncodeDb(c, dbid, db)
  {
    hide EncodeRecords, EncodeLen, Distinct;
    var inner := [RDB_OPCODE_RESIZEDB] + EncodeLen(|db|) + EncodeLen(ExpireCount(db)) + EncodeRecords(c, db);
    AppendFour(start + [RDB_OPCODE_SELECTDB] + EncodeLen(dbid), [RDB_OPCODE_RESIZEDB], EncodeLen(|db|),
      EncodeLen(ExpireCount(db)), EncodeRecords(c, db));
    AppendThree(start, [RDB_OPCODE_SELECTDB], EncodeLen(dbid), inner);
  }

  method SaveInfoAuxFields(rdb: Rio, c: SaveConfig, aux: seq<Pair>)
    requires AllFit(Flatten(aux))
    modifies rdb
    ensures rdb.buf == old(rdb.buf) + EncodeAux(c, aux)
  {
    hide EncodeStrings;
    ghost var start := rdb.buf;
    var i := 0;
    assert aux[0..] == aux;
    while i < |aux|
      invariant 0 <= i <= |aux| && AllFit(Flatten(aux[i..]))
      invariant rdb.buf + EncodeAux(c, aux[i..]) == start + EncodeAux(c, aux)
    {
      ghost var before := rdb.buf;
      ghost var xs := [aux[i].0, aux[i].1];
      assert Flatten(aux[i..]) == xs + Flatten(aux[i..][1..]) && aux[i..][1..] == aux[i + 1..];
      assert forall x :: x in xs || x in Flatten(aux[i + 1..]) ==> x in Flatten(aux[i..]);
      var _ := SaveType(rdb, RDB_OPCODE_AUX);
      var _ := SaveStrings(rdb, c.env.z, [aux[i].0, aux[i].1]);
      AppendThree(before, [RDB_OPCODE_AUX], EncodeStrings(c.env.z, xs), EncodeAux(c, aux[i + 1..]));
      i := i + 1;
    }
    assert EncodeAux(c, aux[i..]) == [];
  }

  method SaveRio(rdb: Rio, c: SaveConfig, aux: seq<Pair>, dbs: seq<Db>)
    requires AllFit(Flatten(aux)) && StorableDbs(c.env, dbs)
    modifies rdb
    ensures rdb.buf == old(rdb.buf) + EncodeDump(c, aux, dbs)
  {
    hide EncodeAux, EncodeDb, StorableDb;
    ghost var start := rdb.buf;
    SaveInfoAuxFields(rdb, c, aux);
    ghost var auxEnd := rdb.buf;
    var j := 0;
    while j < |dbs|
      invariant 0 <= j <= |dbs|
      invariant rdb.buf + EncodeDbs(c, dbs, j) == auxEnd + EncodeDbs(c, dbs, 0)
    {
      ghost var before := rdb.buf;
      SaveDb(rdb, c, j, dbs[j]);
      AppendTwo(before, EncodeDb(c, j, dbs[j]), EncodeDbs(c, dbs, j + 1));
      j := j + 1;
    }
    assert rdb.buf == auxEnd + EncodeDbs(c, dbs, 0) by {
      assert rdb.buf + [] == rdb.buf;
    }
    var _ := SaveType(rdb, RDB_OPCODE_EOF);
    AppendThree(start, EncodeAux(c, aux), EncodeDbs(c, dbs, 0), [RDB_OPCODE_EOF]);
  }

  // ------------------------------------------------------------------ loading

  datatype StoredKey = StoredKey(value: Value, expire: Option<int>, idle: int, freq: int)
  {
    function Seen(): LoadedKey {
      LoadedKey(ContentOf(value), expire, idle, freq)
    }
  }

  function SeenDb(m: map<Bytes, StoredKey>): (r: LoadedDb) {
    map k | k in m :: m[k].Seen()
  }

  function SeenDbs(dbs: seq<map<Bytes, StoredKey>>): (r: seq<LoadedDb>)
    ensures |r| == |dbs|
  {
    seq(|dbs|, i requires 0 <= i < |dbs| => SeenDb(dbs[i]))
  }

  class Dataset {
    var dbs: seq<map<Bytes, StoredKey>>

    constructor (dbnum: nat)
      ensures SeenDbs(dbs) == EmptyDbs(dbnum)
    {
      dbs := seq(dbnum, i => map[]);
    }
  }

  lemma SeenUpdate(dbs: seq<map<Bytes, StoredKey>>, i: nat, key: Bytes, e: StoredKey)
    requires i < |dbs|
    ensures SeenDbs(dbs[i := dbs[i][key := e]]) == SeenDbs(dbs)[i := SeenDbs(dbs)[i][key := e.Seen()]]
  {
    hide StoredKey.Seen;
    var l, r := SeenDbs(dbs[i := dbs[i][key := e]]), SeenDbs(dbs)[i := SeenDbs(dbs)[i][key := e.Seen()]];
    forall j | 0 <= j < |dbs| ensures l[j] == r[j] {
    }
  }

  /** The key-specific part of one loop iteration; returns false when loading must stop. */
  method LoadKeyInto(rdb: Rio, c: LoadConfig, d: Dataset, t: byte, dbid: nat, expire: int, idle: int, freq: int)
    returns (ok: bool)
    requires dbid < |d.dbs|
    modifies rdb, d
    ensures match LoadKey(c, t, old(rdb.buf), LoaderState(dbid, expire, idle, freq, SeenDbs(old(d.dbs))))
            case Next(st, rest) =>
              ok && rdb.buf == rest && rdb.readError == old(rdb.readError) && SeenDbs(d.dbs) == st.dbs
            case _ => !ok
  {
    hide ParseString, ParseObject, ContentOf, SeenDbs;
    var key := GenericLoadStringObject(rdb, c.env.z);
    if key.None? {
      return false;
    }
    var val := LoadObject(rdb, c.env, t);
    if val.Err? {
      return val.error == EmptyKey;
    }
    ok := StoreLoadedKey(c, d, key.value, val.value, dbid, expire, idle, freq);
  }

  method StoreLoadedKey(c: LoadConfig, d: Dataset, key: Bytes, val: Value, dbid: nat, expire: int, idle: int, freq: int)
    returns (ok: bool)
    requires dbid < |d.dbs|
    modifies d
    ensures match StoreKey(c, LoaderState(dbid, expire, idle, freq, SeenDbs(old(d.dbs))), key, ContentOf(val))
            case Some(st) => ok && SeenDbs(d.dbs) == st.dbs
            case None => !ok
    ensures
      var past := c.master && !c.aofPreamble && expire != -1 && expire < c.now;
      var entry := StoredKey(val, if expire == -1 then None else Some(expire), idle, freq);
      && (ok <==> past || c.allowDup || key !in old(d.dbs)[dbid])
      && d.dbs == if ok && !past then old(d.dbs)[dbid := old(d.dbs)[dbid][key := entry]] else old(d.dbs)
  {
    if c.master && !c.aofPreamble && expire != -1 && expire < c.now {
      return true;
    }
    var db := d.dbs[dbid];
    if key in db {
      if !c.allowDup {
        return false;
      }
      db := db - {key};
    }
    var entry := StoredKey(val, if expire != -1 then Some(expire) else None, idle, freq);
    SeenUpdate(d.dbs, dbid, key, entry);
    assert db[key := entry] == d.dbs[dbid][key := entry];
    d.dbs := d.dbs[dbid := db[key := entry]];
    ok := true;
  }

  /**
   * The opcode loop. It succeeds exactly when the specification loop does, and then the dataset holds exactly what
   * that loop built and the stream is positioned after the end marker.
   */
  method LoadRio(rdb: Rio, c: LoadConfig, d: Dataset) returns (ok: bool)
    requires 0 < |d.dbs| == c.dbnum && !rdb.readError
    modifies rdb, d
    ensures match RunLoader(c, old(rdb.buf), LoaderState(0, -1, -1, -1, SeenDbs(old(d.dbs))))
            case Some((dbs, rest)) => ok && SeenDbs(d.dbs) == dbs && rdb.buf == rest
            case None => !ok
  {
    hide ParseLen, ParseTime, ParseStrings, ParseString, LoadKey, SeenDbs;
    var dbid: nat := 0;
    var expire: int, idle: int, freq: int := -1, -1, -1;
    ghost var goal := RunLoader(c, rdb.buf, LoaderState(0, -1, -1, -1, SeenDbs(d.dbs)));
    while true
      invariant dbid < |d.dbs| == c.dbnum && !rdb.readError
      invariant RunLoader(c, rdb.buf, LoaderState(dbid, expire, idle, freq, SeenDbs(d.dbs))) == goal
      decreases |rdb.buf|
    {
      ghost var s := rdb.buf;
      ghost var st := LoaderState(dbid, expire, idle, freq, SeenDbs(d.dbs));
      var t := LoadType(rdb);
      if t.None? {
        return false;
      }
      if t.value == RDB_OPCODE_EXPIRETIME {
        var raw := rdb.Read(4);
        if raw.None? {
          return false;
        }
        expire := FromSignedLittleEndian(raw.value) * 1000;
      } else if t.value == RDB_OPCODE_EXPIRETIME_MS {
        expire := LoadMillisecondTime(rdb);
        if rdb.readError {
          return false;
        }
      } else if t.value == RDB_OPCODE_FREQ {
        var raw := rdb.Read(1);
        if raw.None? {
          return false;
        }
        freq := raw.value[0];
      } else if t.value == RDB_OPCODE_IDLE {
        var q := LoadLen(rdb);
        if q == RDB_LENERR {
          return false;
        }
        idle := ToSigned(q);
      } else if t.value == RDB_OPCODE_EOF {
        return true;
      } else if t.value == RDB_OPCODE_SELECTDB {
        var id := LoadLen(rdb);
        if id == RDB_LENERR || id >= c.dbnum {
          return false;
        }
        dbid := id;
      } else if t.value == RDB_OPCODE_RESIZEDB {
        var size := LoadLen(rdb);
        if size == RDB_LENERR {
          return false;
        }
        size := LoadLen(rdb);
        if size == RDB_LENERR {
          return false;
        }
      } else if t.value == RDB_OPCODE_AUX {
        AuxStrings(c.env.z, rdb.buf);
        var key := GenericLoadStringObject(rdb, c.env.z);
        if key.None? {
          return false;
        }
        var val := GenericLoadStringObject(rdb, c.env.z);
        if val.None? {
          return false;
        }
      } else if t.value in {RDB_OPCODE_MODULE_AUX, RDB_OPCODE_FUNCTION_PRE_GA, RDB_OPCODE_FUNCTION2} {
        return false;
      } else {
        var loaded := LoadKeyInto(rdb, c, d, t.value, dbid, expire, idle, freq);
        if !loaded {
          return false;
        }
        expire, freq, idle := -1, -1, -1;
      }
    }
  }

  lemma {:induction false} OneString(z: Lzf, s: Bytes)
    ensures match ParseString(z, s)
            case None => ParseStrings(z, 1, s) == None
            case Some((v, rest)) => ParseStrings(z, 1, s) == Some(([v], rest))
  {
    hide ParseString;
    match ParseString(z, s)
    case None =>
    case Some((v, rest)) =>
      assert ParseStrings(z, 0, rest) == Some(([], rest));
      assert [v] + [] == [v];
  }

  lemma {:induction false} AuxStrings(z: Lzf, s: Bytes)
    ensures match ParseString(z, s)
            case None => ParseStrings(z, 2, s) == None
            case Some((k, s1)) =>
              match ParseString(z, s1)
              case None => ParseStrings(z, 2, s) == None
              case Some((v, rest)) => ParseStrings(z, 2, s) == Some(([k, v], rest))
  {
    hide ParseString;
    match ParseString(z, s)
    case None =>
    case Some((k, s1)) =>
      OneString(z, s1);
      assert forall v: Bytes :: [k] + [v] == [k, v];
  }

  // ------------------------------------------------------------------ what a client finds after loading

  /** The key comes back as it was: the data, the expire (where -1 means none), and the usage that was saved with it. */
  ghost predicate ComesBackAs(c: SaveConfig, r: Record, e: StoredKey) {
    && SameData(e.value, r.value)
    && e.expire == (if r.expire == Some(-1) then None else r.expire)
    && e.idle == (if c.savelru then r.idle else -1)
    && e.freq == (if c.savelfu then r.freq else -1)
  }

  /** Everything but an empty hash or an empty set; an empty intset is not told from one with members. */
  predicate HoldsSomething(v: Value) {
    match v
    case StringValue(_) => true
    case SetValue(o) => o.IntSet? || |o.elems| > 0
    case HashValue(o) => |o.pairs| > 0
  }

  /** A key whose time is over when it is loaded on a master; a replica and a preamble keep it. */
  predicate TimeIsOver(l: LoadConfig, expire: Option<int>) {
    l.master && !l.aofPreamble && expire.Some? && expire.value < l.now && expire != Some(-1)
  }

  /**
   * The loaded databases hold each saved key that has something in it and whose time is not over, as it was, and
   * nothing else: a master throws away no key that a client could still see, and keeps none that it could not.
   */
  ghost predicate ClientFinds(c: SaveConfig, l: LoadConfig, dbs: seq<Db>, loaded: seq<map<Bytes, StoredKey>>) {
    && |loaded| == l.dbnum
    && (forall i: nat, j: nat :: i < |dbs| && j < |dbs[i]| && i < |loaded| ==> FindsRecord(c, l, dbs[i][j], loaded[i]))
    && (forall i: nat, k :: i < |loaded| && k in loaded[i] ==> i < |dbs| && k in Keys(dbs[i]))
  }

  ghost predicate FindsRecord(c: SaveConfig, l: LoadConfig, r: Record, db: map<Bytes, StoredKey>) {
    && (r.key in db <==> HoldsSomething(r.value) && !TimeIsOver(l, r.expire))
    && (r.key in db ==> ComesBackAs(c, r, db[r.key]))
  }

  /** The keys a loading master throws away are those that a reader of the saved keyspace no longer sees. */
  lemma {:induction false} OverIsInvisible(l: LoadConfig, k: KeyspaceSpec.Slot, v: Value, expire: Option<int>)
    requires l.master && !l.aofPreamble && (expire.Some? ==> expire.value >= -1)
    ensures var s := KeyspaceSpec.State(map[k := v], if expire.Some? then map[k := expire.value] else map[]);
      TimeIsOver(l, expire) <==> k !in KeyspaceSpec.View(s, l.now)
  {
  }

  lemma {:induction false} RecordIsFound(c: SaveConfig, l: LoadConfig, db: Db, j: nat, loaded: map<Bytes, StoredKey>)
    requires Distinct(Keys(db)) && j < |db| && SeenDb(loaded) == ExpectedDb(c, l, db)
    ensures FindsRecord(c, l, db[j], loaded)
  {
    hide ExpectedDb, ContentOf, SameData, Distinct;
    var r := db[j];
    ExpectedDbExact(c, l, db);
    assert r.key in loaded <==> r.key in SeenDb(loaded);
    if r.key in loaded {
      var i :| 0 <= i < |db| && Survives(l, db[i]) && db[i].key == r.key;
      SameKeySameRecord(db, i, j);
      SameContentIsSameData(loaded[r.key].value, r.value);
      assert SeenDb(loaded)[r.key] == loaded[r.key].Seen();
    }
  }

  lemma {:induction false} SameKeySameRecord(db: Db, i: nat, j: nat)
    requires Distinct(Keys(db)) && i < |db| && j < |db| && db[i].key == db[j].key
    ensures i == j
  {
    assert Keys(db)[i] == Keys(db)[j];
  }

  lemma {:induction false} KeyWasSaved(c: SaveConfig, l: LoadConfig, db: Db, k: Bytes, loaded: map<Bytes, StoredKey>)
    requires Distinct(Keys(db)) && SeenDb(loaded) == ExpectedDb(c, l, db) && k in loaded
    ensures k in Keys(db)
  {
    hide ExpectedDb, Survives, Expected;
    ExpectedDbExact(c, l, db);
    assert k in SeenDb(loaded);
    var i :| 0 <= i < |db| && Survives(l, db[i]) && db[i].key == k;
    assert Keys(db)[i] == k;
  }

  lemma {:induction false} ExpectedIsFound(c: SaveConfig, l: LoadConfig, dbs: seq<Db>, loaded: seq<map<Bytes, StoredKey>>)
    requires StorableDbs(c.env, dbs) && |dbs| <= l.dbnum && SeenDbs(loaded) == AllExpected(c, l, dbs)
    ensures ClientFinds(c, l, dbs, loaded)
  {
    hide ExpectedDb, FindsRecord, SeenDb;
    assert forall i :: 0 <= i < |loaded| ==> SeenDbs(loaded)[i] == SeenDb(loaded[i]);
    forall i: nat, j: nat | i < |dbs| && j < |dbs[i]| && i < |loaded| ensures FindsRecord(c, l, dbs[i][j], loaded[i]) {
      assert StorableDb(c.env, dbs[i]);
      RecordIsFound(c, l, dbs[i], j, loaded[i]);
    }
    forall i: nat, k | i < |loaded| && k in loaded[i] ensures i < |dbs| && k in Keys(dbs[i]) {
      if i < |dbs| {
        assert StorableDb(c.env, dbs[i]);
        KeyWasSaved(c, l, dbs[i], k, loaded[i]);
      } else {
        NothingSeen(loaded[i]);
      }
    }
  }

  lemma {:induction false} NothingSeen(m: map<Bytes, StoredKey>)
    ensures SeenDb(m) == map[] ==> m == map[]
  {
    assert forall k :: k in m ==> k in SeenDb(m);
  }

  /** Saving on one server and loading on another: what a client then finds is what was there. */
  method SaveThenLoad(c: SaveConfig, l: LoadConfig, aux: seq<Pair>, dbs: seq<Db>) returns (d: Dataset)
    requires SameFormats(c, l) && AllFit(Flatten(aux)) && StorableDbs(c.env, dbs)
    requires |dbs| <= l.dbnum && l.dbnum > 0
    ensures fresh(d) && SeenDbs(d.dbs) == AllExpected(c, l, dbs)
    ensures ClientFinds(c, l, dbs, d.dbs)
  {
    hide EncodeDump, RunLoader, SeenDbs, AllExpected, StorableDbs, ClientFinds;
    var rdb := new Rio([]);
    SaveRio(rdb, c, aux, dbs);
    DumpRoundTrip(c, l, aux, dbs, []);
    assert rdb.buf == EncodeDump(c, aux, dbs) + [];
    d := new Dataset(l.dbnum);
    assert |SeenDbs(d.dbs)| == |d.dbs|;
    var file := new Rio(rdb.buf);
    var ok := LoadRio(file, l, d);
    assert ok;
    ExpectedIsFound(c, l, dbs, d.dbs);
  }
}
