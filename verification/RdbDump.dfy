/**
 * A whole dump: auxiliary fields, then every non-empty database, then the end marker (rdbSaveRio), read back by the
 * opcode loop of rdbLoadRioWithLoadingCtx. The loop carries the attributes of the next key from one opcode to the
 * next; the theorem is that none of them ever reaches another key.
 */
module RdbDump {
  import opened Base
  import opened RdbCodec
  import opened RdbValues

  const RDB_OPCODE_IDLE: byte := 248
  const RDB_OPCODE_FREQ: byte := 249
  const RDB_OPCODE_AUX: byte := 250
  const RDB_OPCODE_RESIZEDB: byte := 251
  const RDB_OPCODE_EXPIRETIME_MS: byte := 252
  const RDB_OPCODE_EXPIRETIME: byte := 253
  const RDB_OPCODE_SELECTDB: byte := 254
  const RDB_OPCODE_EOF: byte := 255

  // ------------------------------------------------------------------ what is saved

  /** One key of a database, with the attributes the saver derives from its object. */
  datatype Record = Record(key: Bytes, value: Value, expire: Option<int>, idle: nat, freq: byte)
  {
    /** getExpire: -1 stands for "no expire". */
    function GetExpire(): int {
      if expire.Some? then expire.value else -1
    }

    ghost predicate Storable(env: Env) {
      Fits(key) && RdbValues.Storable(env, value) && Int64(GetExpire()) && idle < 0x8000_0000_0000_0000
    }
  }

  /** A database in the iteration order of its dict. */
  type Db = seq<Record>

  datatype SaveConfig = SaveConfig(env: Env, savelru: bool, savelfu: bool)

  function Keys(db: Db): (r: seq<Bytes>)
    ensures |r| == |db|
  {
    seq(|db|, i requires 0 <= i < |db| => db[i].key)
  }

  function ExpireCount(db: Db): (n: nat)
    ensures n <= |db|
  {
    if db == [] then 0 else ExpireCount(db[1..]) + if db[0].expire.Some? then 1 else 0
  }

  ghost predicate StorableDb(env: Env, db: Db) {
    |db| < RDB_LENERR && Distinct(Keys(db)) && forall i :: 0 <= i < |db| ==> db[i].Storable(env)
  }

  ghost predicate StorableDbs(env: Env, dbs: seq<Db>) {
    |dbs| < RDB_LENERR && forall i :: 0 <= i < |dbs| ==> StorableDb(env, dbs[i])
  }

  // ------------------------------------------------------------------ the bytes

  function EncodeExpire(expire: int): (r: Bytes) {
    if expire != -1 then [RDB_OPCODE_EXPIRETIME_MS] + EncodeTime(expire) else []
  }

  function EncodeIdle(c: SaveConfig, idle: nat): (r: Bytes)
    requires idle < U64
  {
    if c.savelru then [RDB_OPCODE_IDLE] + EncodeLen(idle) else []
  }

  function EncodeFreq(c: SaveConfig, freq: byte): (r: Bytes) {
    if c.savelfu then [RDB_OPCODE_FREQ, freq] else []
  }

  ghost function EncodeKeyValue(c: SaveConfig, r: Record): (b: Bytes)
    requires r.Storable(c.env)
  {
    [TypeOf(r.value)] + EncodeString(c.env.z, r.key) + EncodeObject(c.env, r.value)
  }

  ghost function EncodeRecord(c: SaveConfig, r: Record): (b: Bytes)
    requires r.Storable(c.env)
  {
    EncodeExpire(r.GetExpire()) + EncodeIdle(c, r.idle) + EncodeFreq(c, r.freq) + EncodeKeyValue(c, r)
  }

  ghost function EncodeRecords(c: SaveConfig, db: Db): (b: Bytes)
    requires forall i :: 0 <= i < |db| ==> db[i].Storable(c.env)
  {
    if db == [] then [] else EncodeRecord(c, db[0]) + EncodeRecords(c, db[1..])
  }

  ghost function EncodeDb(c: SaveConfig, dbid: nat, db: Db): (b: Bytes)
    requires StorableDb(c.env, db) && dbid < RDB_LENERR
  {
    if db == [] then []
    else
      [RDB_OPCODE_SELECTDB] + EncodeLen(dbid) +
      ([RDB_OPCODE_RESIZEDB] + EncodeLen(|db|) + EncodeLen(ExpireCount(db)) + EncodeRecords(c, db))
  }

  /** The databases from index i on. */
  ghost function EncodeDbs(c: SaveConfig, dbs: seq<Db>, i: nat): (b: Bytes)
    requires StorableDbs(c.env, dbs) && i <= |dbs|
    decreases |dbs| - i
  {
    if i == |dbs| then [] else EncodeDb(c, i, dbs[i]) + EncodeDbs(c, dbs, i + 1)
  }

  ghost function EncodeAux(c: SaveConfig, aux: seq<Pair>): (b: Bytes)
    requires AllFit(Flatten(aux))
  {
    if aux == [] then []
    else [RDB_OPCODE_AUX] + EncodeStrings(c.env.z, [aux[0].0, aux[0].1]) + EncodeAux(c, aux[1..])
  }

  ghost function EncodeDump(c: SaveConfig, aux: seq<Pair>, dbs: seq<Db>): (b: Bytes)
    requires AllFit(Flatten(aux)) && StorableDbs(c.env, dbs)
  {
    EncodeAux(c, aux) + EncodeDbs(c, dbs, 0) + [RDB_OPCODE_EOF]
  }

  /** A record byte by byte: expire, idle time, frequency, type, key and value, each attribute under its opcode. */
  lemma {:induction false} RecordFormat(c: SaveConfig, r: Record)
    requires r.Storable(c.env)
    ensures EncodeRecord(c, r) ==
      (if r.expire.Some? && r.expire.value != -1 then [252] + EncodeTime(r.expire.value) else []) +
      (if c.savelru then [248] + EncodeLen(r.idle) else []) + (if c.savelfu then [249, r.freq] else []) +
      ([TypeOf(r.value)] + EncodeString(c.env.z, r.key) + EncodeObject(c.env, r.value))
  {
    hide EncodeTime, EncodeLen, EncodeString, EncodeObject, TypeOf;
  }

  /** One database with one key in it: selector, size hints, the record and the end marker. */
  lemma {:induction false} DumpFormat(c: SaveConfig, r: Record)
    requires r.Storable(c.env)
    ensures var hint := if r.expire.Some? then 1 else 0;
      EncodeDump(c, [], [[r]]) == [254, 0, 251, 1, hint] + EncodeRecord(c, r) + [255]
  {
    hide EncodeRecord, EncodeLen;
    LenFormat(0);
    LenFormat(1);
    assert [r][1..] == [];
    var body := EncodeRecord(c, r);
    assert EncodeRecords(c, [r]) == body + [] == body;
    var hint := if r.expire.Some? then 1 else 0;
    assert ExpireCount([r]) == hint;
    assert EncodeDb(c, 0, [r]) == [254, 0, 251, 1, hint] + body;
    assert EncodeDbs(c, [[r]], 1) == [];
    assert EncodeDbs(c, [[r]], 0) == EncodeDb(c, 0, [r]) + [];
  }

  /** The type byte of each way to store a value. */
  lemma {:induction false} TypeBytes(text: Bytes, ints: seq<int>, elems: seq<Bytes>, pairs: seq<Pair>)
    ensures TypeOf(StringValue(RawString(text))) == 0
    ensures TypeOf(SetValue(TableSet(elems))) == 2 && TypeOf(HashValue(TableHash(pairs))) == 4
    ensures TypeOf(SetValue(IntSet(ints))) == 11
    ensures TypeOf(HashValue(ListpackHash(pairs))) == 16 && TypeOf(SetValue(ListpackSet(elems))) == 20
  {
  }

  ghost function WithExpire(db: Db): set<Record> {
    set r | r in db && r.expire.Some?
  }

  lemma {:induction false} FirstIsNew(db: Db)
    requires Distinct(Keys(db)) && db != []
    ensures Distinct(Keys(db[1..])) && db[0] !in db[1..]
  {
    assert forall i :: 0 <= i < |db[1..]| ==> Keys(db[1..])[i] == Keys(db)[i + 1];
    forall r | r in db[1..] ensures r != db[0] {
      var i :| 0 <= i < |db[1..]| && db[1..][i] == r;
      assert Keys(db)[0] != Keys(db)[i + 1];
    }
  }

  lemma {:induction false} ExpireCountStep(db: Db)
    requires db != []
    ensures ExpireCount(db) == ExpireCount(db[1..]) + if db[0].expire.Some? then 1 else 0
    ensures WithExpire(db) == WithExpire(db[1..]) + if db[0].expire.Some? then {db[0]} else {}
  {
    hide ExpireCount;
    ExpireCountFirst(db);
    assert forall r :: r in db <==> r == db[0] || r in db[1..];
  }

  lemma {:induction false} ExpireCountFirst(db: Db)
    requires db != []
    ensures ExpireCount(db) == ExpireCount(db[1..]) + if db[0].expire.Some? then 1 else 0
  {
  }

  /** The hint counts the keys that have an expire. */
  lemma {:induction false} ExpireCountCounts(db: Db)
    requires Distinct(Keys(db))
    ensures ExpireCount(db) == |WithExpire(db)|
  {
    hide ExpireCount, Distinct;
    if db == [] {
      NoneWithExpire();
    } else {
      FirstIsNew(db);
      ExpireCountStep(db);
      ExpireCountCounts(db[1..]);
    }
  }

  lemma {:induction false} NoneWithExpire()
    ensures ExpireCount([]) == 0 && WithExpire([]) == {}
  {
  }

  // ------------------------------------------------------------------ the loader

  datatype LoadedKey = LoadedKey(content: Content, expire: Option<int>, idle: int, freq: int)

  type LoadedDb = map<Bytes, LoadedKey>

  datatype LoadConfig = LoadConfig(env: Env, dbnum: nat, master: bool, aofPreamble: bool, allowDup: bool, now: int)

  /** The local variables of the opcode loop, with the databases filled so far. */
  datatype LoaderState = LoaderState(dbid: nat, expire: int, idle: int, freq: int, dbs: seq<LoadedDb>)
  {
    function Reset(): LoaderState {
      LoaderState(dbid, -1, -1, -1, dbs)
    }
  }

  /** A master loading its own dump drops keys that are already past their expire. */
  predicate Dropped(c: LoadConfig, expire: int) {
    c.master && !c.aofPreamble && expire != -1 && expire < c.now
  }

  function ToSigned(q: nat): (v: int) {
    if q >= 0x8000_0000_0000_0000 then q - U64 else q
  }

  /** The stored 64 bits as a signed number. */
  lemma {:induction false} SignedIsCongruent(q: nat)
    requires q < U64
    ensures Int64(ToSigned(q)) && ToSigned(q) % U64 == q
  {
  }

  /** Files a key under the attributes gathered for it, or nothing when a duplicate key stops the server. */
  function StoreKey(c: LoadConfig, st: LoaderState, key: Bytes, content: Content): (r: Option<LoaderState>)
    requires st.dbid < |st.dbs|
    ensures r.Some? ==>
      |r.value.dbs| == |st.dbs| && r.value == LoaderState(st.dbid, -1, -1, -1, r.value.dbs)
  {
    if Dropped(c, st.expire) then Some(st.Reset())
    else if key in st.dbs[st.dbid] && !c.allowDup then None
    else
      var entry := LoadedKey(content, if st.expire != -1 then Some(st.expire) else None, st.idle, st.freq);
      Some(st.(dbs := st.dbs[st.dbid := st.dbs[st.dbid][key := entry]]).Reset())
  }

  /** What one opcode or key does: continue with a new state, stop at the end marker, or fail. */
  datatype Step = Next(st: LoaderState, rest: Bytes) | Done(rest: Bytes) | Failed

  ghost function LoadKey(c: LoadConfig, t: byte, s: Bytes, st: LoaderState): (r: Step)
    requires st.dbid < |st.dbs|
    ensures !r.Done?
    ensures r.Next? ==>
      |r.rest| < |s| && |r.st.dbs| == |st.dbs| && r.st == LoaderState(st.dbid, -1, -1, -1, r.st.dbs)
  {
    match ParseString(c.env.z, s)
    case None => Failed
    case Some((key, s1)) =>
      match ParseObject(c.env, t, s1)
      case Bad => Failed
      case Empty(rest) => Next(st.Reset(), rest)
      case Got(content, rest) =>
        match StoreKey(c, st, key, content)
        case None => Failed
        case Some(st') => Next(st', rest)
  }

  ghost function StepOpcode(c: LoadConfig, s: Bytes, st: LoaderState): (r: Step)
    requires st.dbid < |st.dbs| == c.dbnum
    ensures r.Next? ==> |r.rest| < |s| && r.st.dbid < |r.st.dbs| == |st.dbs|
  {
    if s == [] then Failed
    else
      var t, s1 := s[0], s[1..];
      if t == RDB_OPCODE_EXPIRETIME then
        if |s1| < 4 then Failed else Next(st.(expire := FromSignedLittleEndian(s1[..4]) * 1000), s1[4..])
      else if t == RDB_OPCODE_EXPIRETIME_MS then
        match ParseTime(s1) case None => Failed case Some((time, rest)) => Next(st.(expire := time), rest)
      else if t == RDB_OPCODE_FREQ then
        if s1 == [] then Failed else Next(st.(freq := s1[0]), s1[1..])
      else if t == RDB_OPCODE_IDLE then
        match ParseCount(s1) case None => Failed case Some((q, rest)) => Next(st.(idle := ToSigned(q)), rest)
      else if t == RDB_OPCODE_EOF then Done(s1)
      else if t == RDB_OPCODE_SELECTDB then
        match ParseCount(s1)
        case None => Failed
        case Some((id, rest)) => if id >= c.dbnum then Failed else Next(st.(dbid := id), rest)
      else if t == RDB_OPCODE_RESIZEDB then
        match ParseCount(s1)
        case None => Failed
        case Some((_, s2)) => (match ParseCount(s2) case None => Failed case Some((_, rest)) => Next(st, rest))
      else if t == RDB_OPCODE_AUX then
        match ParseStrings(c.env.z, 2, s1) case None => Failed case Some((_, rest)) => Next(st, rest)
      else if t in {RDB_OPCODE_MODULE_AUX, RDB_OPCODE_FUNCTION_PRE_GA, RDB_OPCODE_FUNCTION2} then Failed
      else LoadKey(c, t, s1, st)
  }

  const RDB_OPCODE_FUNCTION2: byte := 245
  const RDB_OPCODE_FUNCTION_PRE_GA: byte := 246
  const RDB_OPCODE_MODULE_AUX: byte := 247

  type LoadedDump = Option<(seq<LoadedDb>, Bytes)>

  ghost function RunLoader(c: LoadConfig, s: Bytes, st: LoaderState): (r: LoadedDump)
    requires st.dbid < |st.dbs| == c.dbnum
    decreases |s|
  {
    match StepOpcode(c, s, st)
    case Failed => None
    case Done(rest) => Some((st.dbs, rest))
    case Next(st', rest) => RunLoader(c, rest, st')
  }

  function EmptyDbs(n: nat): (r: seq<LoadedDb>)
    ensures |r| == n
  {
    seq(n, i => map[])
  }

  function InitialState(dbnum: nat): LoaderState {
    LoaderState(0, -1, -1, -1, EmptyDbs(dbnum))
  }

  // ------------------------------------------------------------------ what should come back

  predicate Survives(l: LoadConfig, r: Record) {
    !Dropped(l, r.GetExpire()) && !LoadsEmpty(r.value)
  }

  /** The key as the loader should know it: its own content, its own expire, its own usage attributes. */
  function Expected(c: SaveConfig, r: Record): LoadedKey {
    LoadedKey(
      ContentOf(r.value),
      if r.GetExpire() != -1 then Some(r.GetExpire()) else None,
      if c.savelru then r.idle else -1,
      if c.savelfu then r.freq else -1)
  }

  function ExpectedDb(c: SaveConfig, l: LoadConfig, db: Db): (m: LoadedDb) {
    if db == [] then map[]
    else
      var m := ExpectedDb(c, l, db[..|db| - 1]);
      var r := db[|db| - 1];
      if Survives(l, r) then m[r.key := Expected(c, r)] else m
  }

  /** ExpectedDb is exactly: every surviving record under its key, and nothing else. */
  lemma {:induction false} ExpectedDbExact(c: SaveConfig, l: LoadConfig, db: Db)
    requires Distinct(Keys(db))
    ensures forall i :: 0 <= i < |db| && Survives(l, db[i]) ==>
      db[i].key in ExpectedDb(c, l, db) && ExpectedDb(c, l, db)[db[i].key] == Expected(c, db[i])
    ensures forall k :: k in ExpectedDb(c, l, db) ==>
      exists i :: 0 <= i < |db| && Survives(l, db[i]) && db[i].key == k
  {
    if db != [] {
      var init, last := db[..|db| - 1], db[|db| - 1];
      assert Keys(db) == Keys(init) + [last.key];
      DistinctAppend(Keys(init), last.key);
      ExpectedDbExact(c, l, init);
      forall i | 0 <= i < |db| && Survives(l, db[i])
        ensures db[i].key in ExpectedDb(c, l, db) && ExpectedDb(c, l, db)[db[i].key] == Expected(c, db[i])
      {
        if i < |init| {
          assert init[i] == db[i] && Keys(init)[i] == db[i].key;
        }
      }
      forall k | k in ExpectedDb(c, l, db)
        ensures exists i :: 0 <= i < |db| && Survives(l, db[i]) && db[i].key == k
      {
        if k in ExpectedDb(c, l, init) {
          var i :| 0 <= i < |init| && Survives(l, init[i]) && init[i].key == k;
          assert db[i] == init[i];
        }
      }
    }
  }

  /** The expire of a surviving key is preserved unless it is the value that also means "none". */
  lemma ExpirePreserved(c: SaveConfig, r: Record)
    ensures Expected(c, r).expire == r.expire <==> r.expire != Some(-1)
  {
  }

  // ------------------------------------------------------------------ round trip

  /** The loading server may use other thresholds, but it reads the same LZF, intset and listpack formats. */
  ghost predicate SameFormats(c: SaveConfig, l: LoadConfig) {
    l.env.z == c.env.z && l.env.pack == c.env.pack && l.env.InversePairs()
  }

  lemma {:induction false} RunStep(l: LoadConfig, s: Bytes, st: LoaderState, st': LoaderState, rest: Bytes)
    requires st.dbid < |st.dbs| == l.dbnum
    requires StepOpcode(l, s, st) == Next(st', rest)
    ensures RunLoader(l, s, st) == RunLoader(l, rest, st')
  {
    hide StepOpcode;
  }

  lemma {:induction false} RunExpire(l: LoadConfig, expire: int, tail: Bytes, st: LoaderState)
    requires st.dbid < |st.dbs| == l.dbnum && st.expire == -1 && Int64(expire)
    ensures RunLoader(l, EncodeExpire(expire) + tail, st) == RunLoader(l, tail, st.(expire := expire))
  {
    hide EncodeTime, ParseTime, RunLoader;
    if expire != -1 {
      TimeRoundTrip(expire, tail);
      AppendTwo([RDB_OPCODE_EXPIRETIME_MS], EncodeTime(expire), tail);
      var s := [RDB_OPCODE_EXPIRETIME_MS] + (EncodeTime(expire) + tail);
      assert s[1..] == EncodeTime(expire) + tail;
      RunStep(l, s, st, st.(expire := expire), tail);
    } else {
      assert EncodeExpire(expire) + tail == tail;
    }
  }

  /** The older expire opcode carries seconds; the loader turns them into milliseconds. */
  lemma {:induction false} RunSeconds(l: LoadConfig, seconds: int, tail: Bytes, st: LoaderState)
    requires st.dbid < |st.dbs| == l.dbnum && -0x8000_0000 <= seconds < 0x8000_0000
    ensures RunLoader(l, [253] + LittleEndian(seconds, 4) + tail, st) ==
            RunLoader(l, tail, st.(expire := seconds * 1000))
  {
    hide RunLoader, LittleEndian, FromSignedLittleEndian, Pow256;
    var four := LittleEndian(seconds, 4);
    Pow256Values();
    SignedLittleEndianRoundTrip(seconds, 4);
    AppendTwo([253], four, tail);
    var s := [253] + (four + tail);
    assert s[1..] == four + tail && (four + tail)[..4] == four && (four + tail)[4..] == tail;
    RunStep(l, s, st, st.(expire := seconds * 1000), tail);
  }

  /** What the auxiliary fields say can be read back one by one. */
  lemma {:induction false} AuxReadsBack(c: SaveConfig, aux: seq<Pair>, tail: Bytes)
    requires c.env.z.InversePair() && aux != [] && AllFit(Flatten(aux))
    ensures AllFit(Flatten(aux[1..])) && EncodeAux(c, aux) + tail != []
    ensures var s := EncodeAux(c, aux) + tail;
      s[0] == 250 && ParseStrings(c.env.z, 2, s[1..]) == Some(([aux[0].0, aux[0].1], EncodeAux(c, aux[1..]) + tail))
  {
    hide EncodeStrings, ParseStrings;
    var xs := [aux[0].0, aux[0].1];
    var after := EncodeAux(c, aux[1..]) + tail;
    assert forall x :: x in xs ==> x in Flatten(aux);
    assert forall x :: x in Flatten(aux[1..]) ==> x in Flatten(aux);
    StringsRoundTrip(c.env.z, xs, after);
    ConcatThree([RDB_OPCODE_AUX], EncodeStrings(c.env.z, xs), EncodeAux(c, aux[1..]), tail);
    assert ([RDB_OPCODE_AUX] + (EncodeStrings(c.env.z, xs) + after))[1..] == EncodeStrings(c.env.z, xs) + after;
  }

  lemma {:induction false} RunIdle(c: SaveConfig, l: LoadConfig, idle: nat, tail: Bytes, st: LoaderState)
    requires st.dbid < |st.dbs| == l.dbnum && st.idle == -1 && idle < 0x8000_0000_0000_0000
    ensures RunLoader(l, EncodeIdle(c, idle) + tail, st) ==
            RunLoader(l, tail, st.(idle := if c.savelru then idle else -1))
  {
    hide EncodeLen, ParseCount, RunLoader;
    if c.savelru {
      CountRoundTrip(idle, tail);
      AppendTwo([RDB_OPCODE_IDLE], EncodeLen(idle), tail);
      var s := [RDB_OPCODE_IDLE] + (EncodeLen(idle) + tail);
      assert s[1..] == EncodeLen(idle) + tail;
      RunStep(l, s, st, st.(idle := idle), tail);
    } else {
      assert EncodeIdle(c, idle) + tail == tail;
    }
  }

  lemma {:induction false} RunFreq(c: SaveConfig, l: LoadConfig, freq: byte, tail: Bytes, st: LoaderState)
    requires st.dbid < |st.dbs| == l.dbnum && st.freq == -1
    ensures RunLoader(l, EncodeFreq(c, freq) + tail, st) ==
            RunLoader(l, tail, st.(freq := if c.savelfu then freq else -1))
  {
    hide RunLoader;
    if c.savelfu {
      var s := [RDB_OPCODE_FREQ, freq] + tail;
      assert s[1..] == [freq] + tail && s[1..][1..] == tail;
      RunStep(l, s, st, st.(freq := freq), tail);
    } else {
      assert EncodeFreq(c, freq) + tail == tail;
    }
  }

  lemma EncodeObjectSameFormats(c: SaveConfig, l: LoadConfig, v: Value)
    requires SameFormats(c, l) && Storable(c.env, v)
    ensures Storable(l.env, v) && EncodeObject(c.env, v) == EncodeObject(l.env, v)
  {
    hide EncodeString, EncodeStrings, EncodeLen, EncodeStringObject, Distinct, Fields, Texts;
  }

  /** The state after a record: the key is filed if it survives, and its attributes are forgotten. */
  function AfterRecord(c: SaveConfig, l: LoadConfig, st: LoaderState, r: Record): (st': LoaderState)
    requires st.dbid < |st.dbs|
    ensures st'.dbid == st.dbid && |st'.dbs| == |st.dbs| && st' == st'.Reset()
  {
    var m := st.dbs[st.dbid];
    st.(dbs := st.dbs[st.dbid := if Survives(l, r) then m[r.key := Expected(c, r)] else m]).Reset()
  }

  lemma LoadKeyStep(l: LoadConfig, t: byte, s: Bytes, st: LoaderState)
    requires st.dbid < |st.dbs| == l.dbnum && t < RDB_OPCODE_FUNCTION2
    ensures StepOpcode(l, [t] + s, st) == LoadKey(l, t, s, st)
  {
    hide LoadKey;
    assert ([t] + s)[1..] == s;
  }

  lemma {:induction false} RunKeyValue(c: SaveConfig, l: LoadConfig, r: Record, tail: Bytes, st: LoaderState)
    requires SameFormats(c, l) && r.Storable(c.env)
    requires st.dbid < |st.dbs| == l.dbnum && r.key !in st.dbs[st.dbid]
    requires st.expire == r.GetExpire()
    requires st.idle == (if c.savelru then r.idle else -1) && st.freq == (if c.savelfu then r.freq else -1)
    ensures RunLoader(l, EncodeKeyValue(c, r) + tail, st) == RunLoader(l, tail, AfterRecord(c, l, st, r))
  {
    hide EncodeString, ParseString, ParseObject, EncodeObject, RunLoader, StepOpcode, ContentOf, LoadsEmpty, Storable;
    EncodeObjectSameFormats(c, l, r.value);
    ObjectRoundTrip(l.env, r.value, tail);
    var body := EncodeObject(c.env, r.value) + tail;
    StringRoundTrip(c.env.z, r.key, body);
    var s := EncodeString(c.env.z, r.key) + body;
    LoadKeyStep(l, TypeOf(r.value), s, st);
    ConcatThree([TypeOf(r.value)], EncodeString(c.env.z, r.key), EncodeObject(c.env, r.value), tail);
    assert st.dbs[st.dbid := st.dbs[st.dbid]] == st.dbs;
    RunStep(l, [TypeOf(r.value)] + s, st, AfterRecord(c, l, st, r), tail);
  }

  lemma ConcatThree(a: Bytes, b: Bytes, c: Bytes, d: Bytes)
    ensures a + b + c + d == a + (b + (c + d))
  {
  }

  lemma {:induction false} RunRecord(c: SaveConfig, l: LoadConfig, r: Record, tail: Bytes, st: LoaderState)
    requires SameFormats(c, l) && r.Storable(c.env)
    requires st.dbid < |st.dbs| == l.dbnum && r.key !in st.dbs[st.dbid] && st == st.Reset()
    ensures RunLoader(l, EncodeRecord(c, r) + tail, st) == RunLoader(l, tail, AfterRecord(c, l, st, r))
  {
    hide EncodeExpire, EncodeIdle, EncodeFreq, EncodeKeyValue, RunLoader, Survives, Expected;
    var kv := EncodeKeyValue(c, r) + tail;
    var freq := EncodeFreq(c, r.freq) + kv;
    var idle := EncodeIdle(c, r.idle) + freq;
    ConcatAssoc(EncodeExpire(r.GetExpire()), EncodeIdle(c, r.idle), EncodeFreq(c, r.freq), EncodeKeyValue(c, r), tail);
    var st1 := st.(expire := r.GetExpire());
    var st2 := st1.(idle := if c.savelru then r.idle else -1);
    var st3 := st2.(freq := if c.savelfu then r.freq else -1);
    RunExpire(l, r.GetExpire(), idle, st);
    RunIdle(c, l, r.idle, freq, st1);
    RunFreq(c, l, r.freq, kv, st2);
    RunKeyValue(c, l, r, tail, st3);
  }

  ghost function WithDb(st: LoaderState, m: LoadedDb): LoaderState
    requires st.dbid < |st.dbs|
  {
    st.(dbs := st.dbs[st.dbid := m])
  }

  lemma {:induction false} RunRecords(c: SaveConfig, l: LoadConfig, db: Db, i: nat, tail: Bytes, st: LoaderState)
    requires SameFormats(c, l) && StorableDb(c.env, db) && i <= |db|
    requires st.dbid < |st.dbs| == l.dbnum && st == st.Reset()
    requires st.dbs[st.dbid] == ExpectedDb(c, l, db[..i])
    ensures RunLoader(l, EncodeRecords(c, db[i..]) + tail, st) ==
            RunLoader(l, tail, WithDb(st, ExpectedDb(c, l, db)))
    decreases |db| - i
  {
    hide RunLoader, EncodeRecord, Expected, Survives;
    if i == |db| {
      assert db[..i] == db;
      assert EncodeRecords(c, db[i..]) + tail == tail;
      assert st.dbs[st.dbid := st.dbs[st.dbid]] == st.dbs;
    } else {
      var r := db[i];
      assert r.key !in st.dbs[st.dbid] by {
        NotYetLoaded(c, l, db, i);
      }
      assert db[i..][1..] == db[i + 1..];
      AppendTwo(EncodeRecord(c, r), EncodeRecords(c, db[i + 1..]), tail);
      RunRecord(c, l, r, EncodeRecords(c, db[i + 1..]) + tail, st);
      var st' := AfterRecord(c, l, st, r);
      assert db[..i + 1][..i] == db[..i];
      RunRecords(c, l, db, i + 1, tail, st');
      assert WithDb(st', ExpectedDb(c, l, db)) == WithDb(st, ExpectedDb(c, l, db));
    }
  }

  lemma {:induction false} NotYetLoaded(c: SaveConfig, l: LoadConfig, db: Db, i: nat)
    requires Distinct(Keys(db)) && i < |db|
    ensures db[i].key !in ExpectedDb(c, l, db[..i])
  {
    assert forall j :: 0 <= j < i ==> Keys(db[..i])[j] == Keys(db)[j];
    forall j | 0 <= j < i ensures db[..i][j].key != db[i].key {
      assert Keys(db)[j] != Keys(db)[i];
    }
    ExpectedDbExact(c, l, db[..i]);
  }

  lemma {:induction false} RunDbHeader(c: SaveConfig, l: LoadConfig, dbid: nat, db: Db, tail: Bytes, st: LoaderState)
    requires StorableDb(c.env, db) && db != [] && dbid < l.dbnum
    requires dbid < RDB_LENERR && st.dbid < |st.dbs| == l.dbnum
    ensures RunLoader(l, EncodeDb(c, dbid, db) + tail, st) ==
            RunLoader(l, EncodeRecords(c, db) + tail, st.(dbid := dbid))
  {
    hide EncodeLen, EncodeRecords, ParseCount, RunLoader, Distinct;
    var records := EncodeRecords(c, db) + tail;
    var sizes := EncodeLen(|db|) + (EncodeLen(ExpireCount(db)) + records);
    var resize := [RDB_OPCODE_RESIZEDB] + sizes;
    var select := [RDB_OPCODE_SELECTDB] + (EncodeLen(dbid) + resize);
    HeaderLayout(c, dbid, db, tail);
    CountRoundTrip(dbid, resize);
    assert select[1..] == EncodeLen(dbid) + resize;
    RunStep(l, select, st, st.(dbid := dbid), resize);
    CountRoundTrip(|db|, EncodeLen(ExpireCount(db)) + records);
    CountRoundTrip(ExpireCount(db), records);
    assert resize[1..] == sizes;
    RunStep(l, resize, st.(dbid := dbid), st.(dbid := dbid), records);
  }

  lemma {:induction false} HeaderLayout(c: SaveConfig, dbid: nat, db: Db, tail: Bytes)
    requires StorableDb(c.env, db) && db != [] && dbid < RDB_LENERR
    ensures EncodeDb(c, dbid, db) + tail ==
      [RDB_OPCODE_SELECTDB] + (EncodeLen(dbid) + ([RDB_OPCODE_RESIZEDB] +
        (EncodeLen(|db|) + (EncodeLen(ExpireCount(db)) + (EncodeRecords(c, db) + tail)))))
  {
    hide EncodeLen, EncodeRecords;
    var inner := [RDB_OPCODE_RESIZEDB] + EncodeLen(|db|) + EncodeLen(ExpireCount(db)) + EncodeRecords(c, db);
    ConcatAssoc([RDB_OPCODE_RESIZEDB], EncodeLen(|db|), EncodeLen(ExpireCount(db)), EncodeRecords(c, db), tail);
    ConcatThree([RDB_OPCODE_SELECTDB], EncodeLen(dbid), inner, tail);
  }

  /** Every database with what should come back; databases the dump does not have stay empty. */
  function AllExpected(c: SaveConfig, l: LoadConfig, dbs: seq<Db>): (r: seq<LoadedDb>)
    ensures |r| == l.dbnum
  {
    seq(l.dbnum, i requires 0 <= i => if i < |dbs| then ExpectedDb(c, l, dbs[i]) else map[])
  }

  lemma {:induction false} RunDbs(c: SaveConfig, l: LoadConfig, dbs: seq<Db>, i: nat, rest: Bytes, st: LoaderState)
    requires SameFormats(c, l) && StorableDbs(c.env, dbs) && i <= |dbs| <= l.dbnum
    requires st.dbid < |st.dbs| == l.dbnum && st == st.Reset()
    requires forall j :: 0 <= j < i ==> st.dbs[j] == ExpectedDb(c, l, dbs[j])
    requires forall j :: i <= j < l.dbnum ==> st.dbs[j] == map[]
    ensures RunLoader(l, EncodeDbs(c, dbs, i) + ([RDB_OPCODE_EOF] + rest), st) ==
            Some((AllExpected(c, l, dbs), rest))
    decreases |dbs| - i
  {
    hide EncodeDb, EncodeRecords, StepOpcode;
    var eof := [RDB_OPCODE_EOF] + rest;
    if i == |dbs| {
      assert EncodeDbs(c, dbs, i) + eof == eof;
      StepEof(l, rest, st);
      assert st.dbs == AllExpected(c, l, dbs);
    } else {
      var tail := EncodeDbs(c, dbs, i + 1) + eof;
      AppendTwo(EncodeDb(c, i, dbs[i]), EncodeDbs(c, dbs, i + 1), eof);
      RunDb(c, l, i, dbs[i], tail, st);
      var st' := AfterDb(c, l, i, dbs[i], st);
      RunDbs(c, l, dbs, i + 1, rest, st');
    }
  }

  function AfterDb(c: SaveConfig, l: LoadConfig, dbid: nat, db: Db, st: LoaderState): (r: LoaderState)
    requires dbid < |st.dbs|
  {
    if db == [] then st else st.(dbid := dbid, dbs := st.dbs[dbid := ExpectedDb(c, l, db)])
  }

  lemma {:induction false} RunDb(c: SaveConfig, l: LoadConfig, dbid: nat, db: Db, tail: Bytes, st: LoaderState)
    requires SameFormats(c, l) && StorableDb(c.env, db) && dbid < RDB_LENERR && dbid < l.dbnum
    requires st.dbid < |st.dbs| == l.dbnum && st == st.Reset() && st.dbs[dbid] == map[]
    ensures RunLoader(l, EncodeDb(c, dbid, db) + tail, st) == RunLoader(l, tail, AfterDb(c, l, dbid, db, st))
  {
    hide RunLoader, EncodeRecords;
    if db == [] {
      assert EncodeDb(c, dbid, db) + tail == tail;
    } else {
      RunDbHeader(c, l, dbid, db, tail, st);
      assert db[0..] == db && db[..0] == [];
      RunRecords(c, l, db, 0, tail, st.(dbid := dbid));
    }
  }

  lemma StepEof(l: LoadConfig, rest: Bytes, st: LoaderState)
    requires st.dbid < |st.dbs| == l.dbnum
    ensures StepOpcode(l, [RDB_OPCODE_EOF] + rest, st) == Done(rest)
  {
    assert ([RDB_OPCODE_EOF] + rest)[1..] == rest;
  }

  lemma {:induction false} RunAux(c: SaveConfig, l: LoadConfig, aux: seq<Pair>, tail: Bytes, st: LoaderState)
    requires SameFormats(c, l) && AllFit(Flatten(aux))
    requires st.dbid < |st.dbs| == l.dbnum
    ensures RunLoader(l, EncodeAux(c, aux) + tail, st) == RunLoader(l, tail, st)
  {
    hide RunLoader, EncodeStrings, ParseStrings;
    if aux == [] {
      assert EncodeAux(c, aux) + tail == tail;
    } else {
      var xs := [aux[0].0, aux[0].1];
      var after := EncodeAux(c, aux[1..]) + tail;
      assert forall x :: x in xs ==> x in Flatten(aux);
      assert forall x :: x in Flatten(aux[1..]) ==> x in Flatten(aux);
      StringsRoundTrip(c.env.z, xs, after);
      ConcatThree([RDB_OPCODE_AUX], EncodeStrings(c.env.z, xs), EncodeAux(c, aux[1..]), tail);
      var s := [RDB_OPCODE_AUX] + (EncodeStrings(c.env.z, xs) + after);
      assert s[1..] == EncodeStrings(c.env.z, xs) + after;
      RunStep(l, s, st, st, after);
      RunAux(c, l, aux[1..], tail, st);
    }
  }

  /**
   * The dump round trip. Whatever the databases hold, whatever the thresholds of the loading server, and with any
   * bytes following, the opcode loop rebuilds each database with every surviving key under exactly its own content,
   * expire, idle time and frequency, and stops right after the end marker.
   */
  lemma {:induction false} DumpRoundTrip(c: SaveConfig, l: LoadConfig, aux: seq<Pair>, dbs: seq<Db>, rest: Bytes)
    requires SameFormats(c, l) && AllFit(Flatten(aux)) && StorableDbs(c.env, dbs)
    requires |dbs| <= l.dbnum && l.dbnum > 0
    ensures RunLoader(l, EncodeDump(c, aux, dbs) + rest, InitialState(l.dbnum)) ==
            Some((AllExpected(c, l, dbs), rest))
  {
    hide RunLoader, EncodeAux, EncodeDbs;
    var st := InitialState(l.dbnum);
    var tail := EncodeDbs(c, dbs, 0) + ([RDB_OPCODE_EOF] + rest);
    ConcatThree(EncodeAux(c, aux), EncodeDbs(c, dbs, 0), [RDB_OPCODE_EOF], rest);
    RunAux(c, l, aux, tail, st);
    RunDbs(c, l, dbs, 0, rest, st);
  }
}
