/**
 * Consumer groups as linked objects: the entry of a pending message is one object, shared by the group's global PEL
 * and by the PEL of the consumer that owns it, and it points back to that consumer.
 */
module StreamLoad {
  import opened Base
  import opened RdbCodec
  import opened RdbIo
  import opened StreamSpec

  class Nack {
    var time: int
    var count: nat
    var consumer: Consumer?

    constructor (time: int, count: nat)
      ensures this.time == time && this.count == count && consumer == null
    {
      this.time, this.count, consumer := time, count, null;
    }
  }

  class Consumer {
    const name: Bytes
    var seen: int
    var active: int
    var pel: map<Bytes, Nack>

    constructor (name: Bytes)
      ensures this.name == name && pel == map[]
    {
      this.name, seen, active, pel := name, 0, 0, map[];
    }
  }

  class Group {
    const header: Header
    var pel: map<Bytes, Nack>
    var consumers: map<Bytes, Consumer>

    constructor (header: Header, pel: map<Bytes, Nack>, consumers: map<Bytes, Consumer>)
      ensures this.header == header && this.pel == pel && this.consumers == consumers
    {
      this.header, this.pel, this.consumers := header, pel, consumers;
    }
  }

  /** Different IDs have different entries. */
  ghost predicate Separate(pel: map<Bytes, Nack>) {
    forall a, b :: a in pel && b in pel && a != b ==> pel[a] != pel[b]
  }

  // ------------------------------------------------------------------ saving

  ghost predicate PelFits(pel: map<Bytes, Nack>)
    reads pel.Values
  {
    && |pel| < RDB_LENERR
    && forall id :: id in pel ==> |id| == ID_SIZE && Int64(pel[id].time) && pel[id].count < U64
  }

  ghost function Ids(ps: seq<Pending>): set<Bytes> {
    set p | p in ps :: p.id
  }

  lemma IdsAppend(ps: seq<Pending>, p: Pending)
    ensures Ids(ps + [p]) == Ids(ps) + {p.id}
  {
    assert forall q :: q in ps + [p] <==> q in ps || q == p;
    forall id
      ensures id in Ids(ps + [p]) <==> id in Ids(ps) || id == p.id
    {
      if id == p.id {
        assert p in ps + [p];
      }
    }
  }

  /** ps is the part of the radix tree outside left, in the order it was walked. */
  ghost predicate Walked(ps: seq<Pending>, pel: map<Bytes, Nack>, left: set<Bytes>)
    reads pel.Values
  {
    && left <= pel.Keys && |ps| + |left| == |pel| && PelStorable(ps)
    && Ids(ps) == pel.Keys - left
    && (forall p :: p in ps ==> Matches(p, pel))
  }

  ghost predicate Matches(p: Pending, pel: map<Bytes, Nack>)
    reads pel.Values
  {
    p.id in pel && p.time == pel[p.id].time && p.count == pel[p.id].count
  }

  ghost predicate ListsPel(ps: seq<Pending>, pel: map<Bytes, Nack>)
    reads pel.Values
  {
    Walked(ps, pel, {})
  }

  function IdsOf(ps: seq<Pending>): (r: seq<Bytes>)
    ensures |r| == |ps|
    ensures forall i :: 0 <= i < |ps| ==> r[i] == ps[i].id
  {
    if ps == [] then [] else IdsOf(ps[..|ps| - 1]) + [ps[|ps| - 1].id]
  }

  ghost function EncodedEntries(ps: seq<Pending>, nacks: bool): Bytes
    requires PelStorable(ps)
  {
    if nacks then EncodePending(ps) else EncodeIds(IdsOf(ps))
  }

  lemma EntriesAppend(ps: seq<Pending>, p: Pending, nacks: bool)
    requires PelStorable(ps) && PendingStorable(p) && forall q :: q in ps ==> q.id != p.id
    ensures PelStorable(ps + [p])
    ensures EncodedEntries(ps + [p], nacks) ==
            EncodedEntries(ps, nacks) + if nacks then EncodePendingOne(p) else p.id
  {
    hide PendingStorable, EncodePendingOne;
    assert (ps + [p])[..|ps|] == ps;
    assert IdsOf(ps + [p])[..|ps|] == IdsOf(ps);
  }

  method SaveEntry(rdb: Rio, id: Bytes, nack: Nack, nacks: bool) returns (nwritten: nat)
    requires PendingStorable(Pending(id, nack.time, nack.count))
    modifies rdb
    ensures var s := if nacks then EncodePendingOne(Pending(id, nack.time, nack.count)) else id;
      rdb.buf == old(rdb.buf) + s && nwritten == |s|
  {
    hide EncodeLen;
    ghost var start := rdb.buf;
    nwritten := rdb.Write(id);
    if nacks {
      var n := SaveMillisecondTime(rdb, nack.time);
      nwritten := nwritten + n;
      n := SaveLen(rdb, nack.count);
      nwritten := nwritten + n;
      AppendThree(start, id, EncodeTime(nack.time), EncodeLen(nack.count));
    }
  }

  lemma AppendThree(start: Bytes, a: Bytes, b: Bytes, c: Bytes)
    ensures start + a + b + c == start + (a + b + c)
  {
  }

  lemma OneLess(all: set<Bytes>, left: set<Bytes>, id: Bytes)
    requires left <= all && id in left
    ensures left - {id} <= all && |left - {id}| == |left| - 1
    ensures all - (left - {id}) == all - left + {id}
  {
  }

  lemma WalkOne(ps: seq<Pending>, pel: map<Bytes, Nack>, left: set<Bytes>, p: Pending)
    requires Walked(ps, pel, left) && p.id in left && PendingStorable(p)
    requires p.time == pel[p.id].time && p.count == pel[p.id].count
    ensures PelStorable(ps) && PelStorable(ps + [p]) && forall q :: q in ps ==> q.id != p.id
    ensures Walked(ps + [p], pel, left - {p.id})
  {
    assert forall q :: q in ps ==> q.id in Ids(ps);
    EntriesAppend(ps, p, true);
    IdsAppend(ps, p);
    assert forall q :: q in ps + [p] <==> q in ps || q == p;
    hide PelStorable, PendingStorable, Ids;
    OneLess(pel.Keys, left, p.id);
  }

  lemma EntryFits(pel: map<Bytes, Nack>, id: Bytes)
    requires PelFits(pel) && id in pel
    ensures PendingStorable(Pending(id, pel[id].time, pel[id].count))
  {
  }

  lemma WalkStart(pel: map<Bytes, Nack>, nacks: bool)
    ensures Walked([], pel, pel.Keys) && PelStorable([]) && EncodedEntries([], nacks) == []
  {
    assert IdsOf([]) == [];
  }

  /** Writes the entry of one more ID, with what that adds to the listing and to the bytes. */
  method SaveNextEntry(rdb: Rio, pel: map<Bytes, Nack>, id: Bytes, nacks: bool,
                       ghost ps: seq<Pending>, ghost left: set<Bytes>)
    returns (nwritten: nat, ghost more: seq<Pending>)
    requires PelFits(pel) && Walked(ps, pel, left) && id in left
    modifies rdb
    ensures Walked(more, pel, left - {id}) && PelStorable(ps) && PelStorable(more)
    ensures EncodedEntries(ps, nacks) <= EncodedEntries(more, nacks)
    ensures rdb.buf == old(rdb.buf) + EncodedEntries(more, nacks)[|EncodedEntries(ps, nacks)|..]
    ensures nwritten == |EncodedEntries(more, nacks)| - |EncodedEntries(ps, nacks)|
  {
    var nack := pel[id];
    ghost var p := Pending(id, nack.time, nack.count);
    EntryFits(pel, id);
    hide EncodePendingOne, EncodedEntries, Walked, PelStorable, PendingStorable, PelFits;
    WalkOne(ps, pel, left, p);
    EntriesAppend(ps, p, nacks);
    nwritten := SaveEntry(rdb, id, nack, nacks);
    more := ps + [p];
  }

  lemma AppendMore(start: Bytes, a: Bytes, b: Bytes, c: Bytes)
    requires b <= c
    ensures start + (a + b) + c[|b|..] == start + (a + c)
  {
  }

  /** A PEL with its entries for the group, or with the IDs alone for a consumer. */
  lemma FewEntries(pel: map<Bytes, Nack>)
    requires PelFits(pel)
    ensures |pel| < U64
  {
  }

  method SaveStreamPEL(rdb: Rio, pel: map<Bytes, Nack>, nacks: bool) returns (nwritten: nat, ghost ps: seq<Pending>)
    requires PelFits(pel)
    modifies rdb
    ensures ListsPel(ps, pel)
    ensures var s := EncodeLen(|ps|) + EncodedEntries(ps, nacks);
      rdb.buf == old(rdb.buf) + s && nwritten == |s|
  {
    hide EncodeLen, EncodedEntries, Walked, PelStorable, ListsPel, PelFits;
    ghost var start := rdb.buf;
    FewEntries(pel);
    nwritten := SaveLen(rdb, |pel|);
    ps := [];
    var left := pel.Keys;
    WalkStart(pel, nacks);
    while left != {}
      invariant left <= pel.Keys && Walked(ps, pel, left) && PelStorable(ps)
      invariant rdb.buf == start + (EncodeLen(|pel|) + EncodedEntries(ps, nacks))
      invariant nwritten == |EncodeLen(|pel|)| + |EncodedEntries(ps, nacks)|
      decreases |left|
    {
      var id :| id in left;
      ghost var done := EncodedEntries(ps, nacks);
      var n;
      n, ps := SaveNextEntry(rdb, pel, id, nacks, ps, left);
      AppendMore(start, EncodeLen(|pel|), done, EncodedEntries(ps, nacks));
      nwritten := nwritten + n;
      left := left - {id};
    }
    AllWalked(ps, pel, left);
  }

  lemma AllWalked(ps: seq<Pending>, pel: map<Bytes, Nack>, left: set<Bytes>)
    requires Walked(ps, pel, left) && left == {}
    ensures ListsPel(ps, pel) && |ps| == |pel|
  {
  }

  ghost predicate ConsumerFits(c: Consumer)
    reads c, c.pel.Values
  {
    Fits(c.name) && Int64(c.seen) && Int64(c.active) && PelFits(c.pel)
  }

  ghost predicate ListsConsumer(r: Reader, c: Consumer)
    reads c
  {
    && r.name == c.name && r.seen == c.seen && r.active == c.active
    && ReaderStorable(r) && Distinct(r.ids) && Elements(r.ids) == c.pel.Keys
  }

  lemma {:induction false} IdsListed(ps: seq<Pending>, c: Consumer)
    requires ListsPel(ps, c.pel) && PelFits(c.pel)
    ensures Distinct(IdsOf(ps)) && Elements(IdsOf(ps)) == c.pel.Keys && |IdsOf(ps)| < RDB_LENERR
    ensures forall id :: id in IdsOf(ps) ==> |id| == ID_SIZE
  {
    assert forall i :: 0 <= i < |ps| ==> ps[i] in ps && Matches(ps[i], c.pel);
    forall id
      ensures id in IdsOf(ps) <==> id in c.pel
    {
      if id in c.pel {
        assert id in Ids(ps);
        var p :| p in ps && p.id == id;
        var i :| 0 <= i < |ps| && ps[i] == p;
        assert IdsOf(ps)[i] == id;
      }
    }
  }

  lemma ReaderOf(c: Consumer, ps: seq<Pending>) returns (r: Reader)
    requires ConsumerFits(c) && ListsPel(ps, c.pel)
    ensures r == Reader(c.name, c.seen, c.active, IdsOf(ps)) && ListsConsumer(r, c) && ReaderStorable(r)
    ensures EncodedEntries(ps, false) == EncodeIds(r.ids)
  {
    IdsListed(ps, c);
    r := Reader(c.name, c.seen, c.active, IdsOf(ps));
    hide PelFits, Distinct, Elements, Walked, EncodeIds;
  }

  lemma PartsFit(c: Consumer)
    requires ConsumerFits(c)
    ensures Fits(c.name) && Int64(c.seen) && Int64(c.active) && PelFits(c.pel)
  {
  }

  method SaveConsumer(rdb: Rio, z: Lzf, c: Consumer) returns (nwritten: nat, ghost r: Reader)
    requires ConsumerFits(c)
    modifies rdb
    ensures ListsConsumer(r, c) && r.name == c.name
    ensures rdb.buf == old(rdb.buf) + EncodeReader(z, r) && nwritten == |EncodeReader(z, r)|
  {
    hide EncodeLen, EncodeString, EncodeIds, EncodeTime, PelFits, EncodedEntries, ReaderStorable;
    hide ConsumerFits, ListsConsumer, ListsPel, EncodeReader;
    ghost var start := rdb.buf;
    PartsFit(c);
    nwritten := SaveRawString(rdb, z, c.name);
    var n := SaveMillisecondTime(rdb, c.seen);
    nwritten := nwritten + n;
    n := SaveMillisecondTime(rdb, c.active);
    nwritten := nwritten + n;
    ghost var ps;
    n, ps := SaveStreamPEL(rdb, c.pel, false);
    nwritten := nwritten + n;
    r := ReaderOf(c, ps);
    ReaderBytes(z, r, start);
  }

  lemma ReaderBytes(z: Lzf, r: Reader, start: Bytes)
    requires ReaderStorable(r)
    ensures var a, b, c := EncodeString(z, r.name), EncodeTime(r.seen), EncodeTime(r.active);
      var d := EncodeLen(|r.ids|) + EncodeIds(r.ids);
      start + a + b + c + d == start + EncodeReader(z, r) && |EncodeReader(z, r)| == |a| + |b| + |c| + |d|
  {
    hide EncodeString, EncodeTime, EncodeLen, EncodeIds;
    var d := EncodeLen(|r.ids|) + EncodeIds(r.ids);
    AppendFour(start, EncodeString(z, r.name), EncodeTime(r.seen), EncodeTime(r.active), d);
  }

  ghost predicate ConsumersFit(m: map<Bytes, Consumer>)
    reads m.Values, set c, id | c in m.Values && id in c.pel :: c.pel[id]
  {
    |m| < RDB_LENERR && forall name :: name in m ==> m[name].name == name && ConsumerFits(m[name])
  }

  ghost function Names(rs: seq<Reader>): set<Bytes> {
    set r | r in rs :: r.name
  }

  lemma NamesAppend(rs: seq<Reader>, r: Reader)
    ensures Names(rs + [r]) == Names(rs) + {r.name}
  {
    assert forall q :: q in rs + [r] <==> q in rs || q == r;
    forall name
      ensures name in Names(rs + [r]) <==> name in Names(rs) || name == r.name
    {
      if name == r.name {
        assert r in rs + [r];
      }
    }
  }

  ghost predicate WalkedConsumers(rs: seq<Reader>, m: map<Bytes, Consumer>, left: set<Bytes>)
    reads m.Values
  {
    && left <= m.Keys && |rs| + |left| == |m| && ReadersStorable(rs)
    && Names(rs) == m.Keys - left
    && (forall r :: r in rs ==> r.name in m && ListsConsumer(r, m[r.name]))
  }

  ghost predicate ListsConsumers(rs: seq<Reader>, m: map<Bytes, Consumer>)
    reads m.Values
  {
    WalkedConsumers(rs, m, {})
  }

  lemma WalkConsumer(rs: seq<Reader>, m: map<Bytes, Consumer>, left: set<Bytes>, r: Reader)
    requires WalkedConsumers(rs, m, left) && r.name in left && ListsConsumer(r, m[r.name])
    ensures ReadersStorable(rs) && ReaderStorable(r) && Distinct(r.ids) && forall q :: q in rs ==> q.name != r.name
    ensures ReadersStorable(rs + [r]) ==> WalkedConsumers(rs + [r], m, left - {r.name})
  {
    NewName(rs, m, left, r.name);
    NamesAppend(rs, r);
    hide ReadersStorable, ReaderStorable, Distinct, Names;
    assert forall q :: q in rs + [r] <==> q in rs || q == r;
    OneLess(m.Keys, left, r.name);
  }

  lemma NewName(rs: seq<Reader>, m: map<Bytes, Consumer>, left: set<Bytes>, name: Bytes)
    requires WalkedConsumers(rs, m, left) && name in left
    ensures forall q :: q in rs ==> q.name != name
  {
    hide ReadersStorable, ListsConsumer;
    assert forall q :: q in rs ==> q.name in Names(rs);
  }

  lemma {:induction false} ReadersAppend(z: Lzf, rs: seq<Reader>, r: Reader)
    requires ReadersStorable(rs) && ReaderStorable(r) && Distinct(r.ids) && forall q :: q in rs ==> q.name != r.name
    ensures ReadersStorable(rs + [r])
    ensures EncodeReaders(z, rs + [r]) == EncodeReaders(z, rs) + EncodeReader(z, r)
  {
    hide ReaderStorable, EncodeReader, Distinct;
    assert (rs + [r])[..|rs|] == rs;
  }

  method SaveStreamConsumers(rdb: Rio, z: Lzf, m: map<Bytes, Consumer>) returns (nwritten: nat, ghost rs: seq<Reader>)
    requires ConsumersFit(m)
    modifies rdb
    ensures ListsConsumers(rs, m)
    ensures var s := EncodeLen(|rs|) + EncodeReaders(z, rs);
      rdb.buf == old(rdb.buf) + s && nwritten == |s|
  {
    hide EncodeLen, EncodeReader, EncodeReaders, ReaderStorable, ListsConsumer, ConsumerFits, WalkedConsumers;
    ghost var start := rdb.buf;
    nwritten := SaveLen(rdb, |m|);
    rs := [];
    var left := m.Keys;
    NoneWalked(z, m);
    while left != {}
      invariant left <= m.Keys && WalkedConsumers(rs, m, left) && ReadersStorable(rs) && |rs| + |left| == |m|
      invariant rdb.buf == start + (EncodeLen(|m|) + EncodeReaders(z, rs))
      invariant nwritten == |EncodeLen(|m|)| + |EncodeReaders(z, rs)|
      decreases |left|
    {
      var name :| name in left;
      ghost var r;
      var n;
      n, r := SaveConsumer(rdb, z, m[name]);
      nwritten := nwritten + n;
      WalkConsumer(rs, m, left, r);
      ReadersAppend(z, rs, r);
      AppendThree(start, EncodeLen(|m|), EncodeReaders(z, rs), EncodeReader(z, r));
      rs := rs + [r];
      left := left - {name};
    }
  }

  lemma {:induction false} NoneWalked(z: Lzf, m: map<Bytes, Consumer>)
    ensures WalkedConsumers([], m, m.Keys) && ReadersStorable([]) && EncodeReaders(z, []) == []
  {
  }

  // ------------------------------------------------------------------ loading

  lemma {:induction false} PendingStaysNone(s: Bytes, k: nat, n: nat)
    requires k <= n && ParsePending(s, k) == None
    ensures ParsePending(s, n) == None
    decreases n
  {
    hide AddPending;
    if k < n {
      PendingStaysNone(s, k, n - 1);
    }
  }

  lemma {:induction false} IdsStayNone(s: Bytes, k: nat, n: nat, pel: set<Bytes>)
    requires k <= n && ParseIds(s, k, pel) == None
    ensures ParseIds(s, n, pel) == None
    decreases n
  {
    hide AddId;
    if k < n {
      IdsStayNone(s, k, n - 1, pel);
    }
  }

  lemma {:induction false} ReadersStayNone(z: Lzf, s: Bytes, k: nat, n: nat, h: Header, pel: map<Bytes, Delivery>)
    requires k <= n && ParseReaders(z, s, k, h, pel) == None
    ensures ParseReaders(z, s, n, h, pel) == None
    decreases n
  {
    hide AddReader;
    if k < n {
      ReadersStayNone(z, s, k, n - 1, h, pel);
    }
  }

  /** The entries of a PEL as they were sent, one object each. */
  ghost predicate Holds(pel: map<Bytes, Nack>, m: map<Bytes, Delivery>)
    reads pel.Values
  {
    && pel.Keys == m.Keys && Separate(pel)
    && forall id :: id in pel ==> pel[id].time == m[id].time && pel[id].count == m[id].count
  }

  ghost predicate Unowned(pel: map<Bytes, Nack>)
    reads pel.Values
  {
    forall id :: id in pel ==> pel[id].consumer == null
  }

  method LoadPendingOne(rdb: Rio) returns (r: Option<(Bytes, Nack)>)
    requires !rdb.readError
    modifies rdb
    ensures match ParsePendingOne(old(rdb.buf))
            case None => r == None
            case Some((p, rest)) =>
              r.Some? && rdb.buf == rest && !rdb.readError && fresh(r.value.1) && r.value.0 == p.id &&
              r.value.1.time == p.time && r.value.1.count == p.count && r.value.1.consumer == null
  {
    hide ParseTime, ParseLen;
    var rawid := rdb.Read(ID_SIZE);
    if rawid.None? {
      return None;
    }
    var time := LoadMillisecondTime(rdb);
    var count := LoadLenByRef(rdb);
    if rdb.readError || count.None? {
      return None;
    }
    var nack := new Nack(time, count.value.len);
    return Some((rawid.value, nack));
  }

  lemma HoldOneMore(pel: map<Bytes, Nack>, m: map<Bytes, Delivery>, id: Bytes, nack: Nack)
    requires Holds(pel, m) && Unowned(pel) && nack !in pel.Values && nack.consumer == null && id !in pel
    ensures Holds(pel[id := nack], m[id := Delivery(nack.time, nack.count)]) && Unowned(pel[id := nack])
  {
    assert forall k :: k in pel ==> pel[k] in pel.Values;
  }

  /** The global PEL; its entries have no consumer yet. */
  method LoadPending(rdb: Rio, n: nat) returns (r: Option<map<Bytes, Nack>>)
    requires !rdb.readError
    modifies rdb
    ensures match ParsePending(old(rdb.buf), n)
            case None => r == None
            case Some((m, rest)) =>
              r.Some? && rdb.buf == rest && !rdb.readError && Holds(r.value, m) && Unowned(r.value) &&
              forall id :: id in r.value ==> fresh(r.value[id])
  {
    hide ParsePendingOne, Holds, Unowned;
    ghost var s := rdb.buf;
    ghost var m: map<Bytes, Delivery> := map[];
    var pel: map<Bytes, Nack> := map[];
    var k := 0;
    NothingHeld();
    while k < n
      invariant 0 <= k <= n && !rdb.readError
      invariant ParsePending(s, k) == Some((m, rdb.buf))
      invariant pel.Keys == m.Keys && Holds(pel, m) && Unowned(pel)
      invariant forall id :: id in pel ==> fresh(pel[id])
    {
      var one := LoadPendingOne(rdb);
      if one.None? || one.value.0 in pel {
        PendingStaysNone(s, k + 1, n);
        return None;
      }
      var (id, nack) := one.value;
      assert nack !in pel.Values;
      HoldOneMore(pel, m, id, nack);
      pel := pel[id := nack];
      m := m[id := Delivery(nack.time, nack.count)];
      k := k + 1;
    }
    return Some(pel);
  }

  lemma NothingHeld()
    ensures Holds(map[], map[]) && Unowned(map[])
  {
  }

  /** The consumer's PEL refers to the very entries of the global one. */
  ghost predicate Shares(c: Consumer, pel: map<Bytes, Nack>, ids: set<Bytes>)
    reads c
  {
    c.pel.Keys == ids && ids <= pel.Keys && forall id :: id in ids ==> c.pel[id] == pel[id]
  }

  /** One more ID of a consumer: its entry, looked up in the global PEL, now points to the consumer. */
  method LoadId(rdb: Rio, c: Consumer, pel: map<Bytes, Nack>) returns (id: Option<Bytes>)
    requires !rdb.readError && Separate(pel) && Shares(c, pel, c.pel.Keys)
    modifies rdb, c`pel, pel.Values`consumer
    ensures match AddId(old(rdb.buf), pel.Keys, old(c.pel.Keys))
            case None => id == None
            case Some((ids, rest)) =>
              id.Some? && id.value in pel && ids == old(c.pel.Keys) + {id.value} && rdb.buf == rest && !rdb.readError &&
              Shares(c, pel, ids) && pel[id.value].consumer == c
    ensures id.Some? ==> forall k :: k in pel && k != id.value ==> pel[k].consumer == old(pel[k].consumer)
  {
    var rawid := rdb.Read(ID_SIZE);
    if rawid.None? || rawid.value !in pel {
      return None;
    }
    var nack := pel[rawid.value];
    nack.consumer := c;
    if rawid.value in c.pel {
      return None;
    }
    c.pel := c.pel[rawid.value := nack];
    return rawid;
  }

  method LoadConsumerPel(rdb: Rio, c: Consumer, pel: map<Bytes, Nack>, n: nat) returns (ok: bool)
    requires !rdb.readError && Separate(pel) && c.pel == map[]
    modifies rdb, c`pel, pel.Values`consumer
    ensures match ParseIds(old(rdb.buf), n, pel.Keys)
            case None => !ok
            case Some((ids, rest)) => ok && rdb.buf == rest && !rdb.readError && Shares(c, pel, ids)
    ensures ok ==> forall id :: id in pel ==> pel[id].consumer == if id in c.pel then c else old(pel[id].consumer)
  {
    hide AddId;
    ghost var s := rdb.buf;
    var k := 0;
    assert c.pel.Keys == {};
    while k < n
      invariant 0 <= k <= n && !rdb.readError
      invariant ParseIds(s, k, pel.Keys) == Some((c.pel.Keys, rdb.buf)) && Shares(c, pel, c.pel.Keys)
      invariant forall id :: id in pel ==> pel[id].consumer == if id in c.pel then c else old(pel[id].consumer)
    {
      var id := LoadId(rdb, c, pel);
      if id.None? {
        IdsStayNone(s, k + 1, n, pel.Keys);
        return false;
      }
      k := k + 1;
    }
    return true;
  }

  ghost predicate IsReader(c: Consumer, name: Bytes, l: Loaded, pel: map<Bytes, Nack>)
    reads c
  {
    c.name == name && c.seen == l.seen && c.active == l.active && Shares(c, pel, l.ids)
  }

  method LoadConsumer(rdb: Rio, z: Lzf, taken: set<Bytes>, pel: map<Bytes, Nack>) returns (r: Consumer?)
    requires !rdb.readError && Separate(pel)
    modifies rdb, pel.Values`consumer
    ensures match ParseReader(z, old(rdb.buf), pel.Keys)
            case None => r == null
            case Some((name, l, rest)) =>
              if name in taken then r == null
              else r != null && fresh(r) && r.name == name && IsReader(r, name, l, pel) && rdb.buf == rest && !rdb.readError
    ensures r != null ==> forall id :: id in pel ==> pel[id].consumer == if id in r.pel then r else old(pel[id].consumer)
  {
    hide ParseString, ParseTime, ParseLen, ParseIds, Separate;
    var name := GenericLoadStringObject(rdb, z);
    if name.None? || name.value in taken {
      return null;
    }
    var c := new Consumer(name.value);
    var seen := LoadMillisecondTime(rdb);
    c.seen := seen;
    if rdb.readError {
      return null;
    }
    var active := LoadMillisecondTime(rdb);
    c.active := active;
    if rdb.readError {
      return null;
    }
    var n := LoadLen(rdb);
    if n == RDB_LENERR {
      return null;
    }
    var ok := LoadConsumerPel(rdb, c, pel, n);
    return if ok then c else null;
  }

  /** The consumers loaded so far, under their names. */
  ghost predicate Roster(consumers: map<Bytes, Consumer>, pel: map<Bytes, Nack>, v: View)
    reads consumers.Values
  {
    && consumers.Keys == v.consumers.Keys
    && forall name :: name in consumers ==> IsReader(consumers[name], name, v.consumers[name], pel)
  }

  /** Every entry points to the consumer it was last resolved to, or to none. */
  ghost predicate Resolved(pel: map<Bytes, Nack>, consumers: map<Bytes, Consumer>, owner: map<Bytes, Bytes>)
    reads pel.Values
  {
    forall id :: id in pel ==> PointsTo(pel[id].consumer, id, consumers, owner)
  }

  ghost predicate PointsTo(c: Consumer?, id: Bytes, consumers: map<Bytes, Consumer>, owner: map<Bytes, Bytes>) {
    if id in owner then owner[id] in consumers && c == consumers[owner[id]] else c == null
  }

  lemma OneMoreReader(consumers: map<Bytes, Consumer>, pel: map<Bytes, Nack>, v: View, c: Consumer, l: Loaded)
    requires Roster(consumers, pel, v) && c.name !in consumers && IsReader(c, c.name, l, pel)
    ensures Roster(consumers[c.name := c], pel, v.Enlist(c.name, l))
  {
    hide IsReader;
  }

  lemma OneMoreOwner(p: Consumer?, id: Bytes, consumers: map<Bytes, Consumer>, v: View, c: Consumer, l: Loaded)
    requires PointsTo(p, id, consumers, v.owner) && c.name !in consumers
    ensures PointsTo(if id in l.ids then c else p, id, consumers[c.name := c], v.Enlist(c.name, l).owner)
  {
  }

  lemma AllRepointed(pel: map<Bytes, Nack>, consumers: map<Bytes, Consumer>, v: View, c: Consumer, l: Loaded,
                     before: map<Bytes, Consumer?>)
    requires before.Keys == pel.Keys && c.name !in consumers
    requires forall id :: id in pel ==> PointsTo(before[id], id, consumers, v.owner)
    requires forall id :: id in pel ==> pel[id].consumer == if id in l.ids then c else before[id]
    ensures Resolved(pel, consumers[c.name := c], v.Enlist(c.name, l).owner)
  {
    hide PointsTo;
    forall id | id in pel
      ensures PointsTo(pel[id].consumer, id, consumers[c.name := c], v.Enlist(c.name, l).owner)
    {
      OneMoreOwner(before[id], id, consumers, v, c, l);
    }
  }

  method LoadNextConsumer(rdb: Rio, z: Lzf, consumers: map<Bytes, Consumer>, pel: map<Bytes, Nack>, ghost v: View)
    returns (c: Consumer?)
    requires !rdb.readError && Separate(pel) && pel.Keys == v.pel.Keys
    requires Roster(consumers, pel, v) && Resolved(pel, consumers, v.owner)
    modifies rdb, pel.Values`consumer
    ensures match AddReader(z, old(rdb.buf), v)
            case None => c == null
            case Some((v', rest)) =>
              c != null && fresh(c) && c.name !in consumers && rdb.buf == rest && !rdb.readError &&
              Roster(consumers[c.name := c], pel, v') && Resolved(pel, consumers[c.name := c], v'.owner)
  {
    hide ParseReader, Separate, IsReader, PointsTo, View.Enlist;
    ghost var before := map id | id in pel :: pel[id].consumer;
    c := LoadConsumer(rdb, z, consumers.Keys, pel);
    if c != null {
      ghost var l := ParseReader(z, old(rdb.buf), pel.Keys).value.1;
      SharedIds(c, c.name, l, pel);
      OneMoreReader(consumers, pel, v, c, l);
      AllRepointed(pel, consumers, v, c, l, before);
    }
  }

  lemma SharedIds(c: Consumer, name: Bytes, l: Loaded, pel: map<Bytes, Nack>)
    requires IsReader(c, name, l, pel)
    ensures c.pel.Keys == l.ids
  {
  }

  method LoadConsumers(rdb: Rio, z: Lzf, n: nat, h: Header, pel: map<Bytes, Nack>, ghost m: map<Bytes, Delivery>)
    returns (r: Option<map<Bytes, Consumer>>)
    requires !rdb.readError && Separate(pel) && Unowned(pel) && pel.Keys == m.Keys
    modifies rdb, pel.Values`consumer
    ensures match ParseReaders(z, old(rdb.buf), n, h, m)
            case None => r == None
            case Some((v, rest)) =>
              r.Some? && rdb.buf == rest && !rdb.readError && v.pel == m && v.header == h &&
              Roster(r.value, pel, v) && Resolved(pel, r.value, v.owner)
    ensures r.Some? ==> forall name :: name in r.value ==> fresh(r.value[name])
  {
    hide AddReader, Separate, Roster, Resolved;
    ghost var s := rdb.buf;
    ghost var v := View(h, m, map[], map[]);
    var consumers: map<Bytes, Consumer> := map[];
    var k := 0;
    NobodyEnlisted(pel, v);
    while k < n
      invariant 0 <= k <= n && !rdb.readError && v.pel == m && v.header == h
      invariant ParseReaders(z, s, k, h, m) == Some((v, rdb.buf))
      invariant forall name :: name in consumers ==> fresh(consumers[name])
      invariant Roster(consumers, pel, v) && Resolved(pel, consumers, v.owner)
    {
      k := k + 1;
      ghost var more := AddReader(z, rdb.buf, v);
      var c := LoadNextConsumer(rdb, z, consumers, pel, v);
      if c == null {
        ReadersStayNone(z, s, k, n, h, m);
        return None;
      }
      consumers := consumers[c.name := c];
      v := more.value.0;
    }
    return Some(consumers);
  }

  lemma NobodyEnlisted(pel: map<Bytes, Nack>, v: View)
    requires Unowned(pel) && v.consumers == map[] && v.owner == map[]
    ensures Roster(map[], pel, v) && Resolved(pel, map[], v.owner)
  {
  }

  /** The loaded group is the parsed one: its objects hold the same values and point to each other as they should. */
  ghost predicate Represents(g: Group, v: View)
    reads g, g.pel.Values, g.consumers.Values
  {
    && g.header == v.header
    && Holds(g.pel, v.pel)
    && Roster(g.consumers, g.pel, v)
    && Resolved(g.pel, g.consumers, v.owner)
  }

  lemma ResolvedMeansOwned(pel: map<Bytes, Nack>, consumers: map<Bytes, Consumer>, v: View)
    requires Resolved(pel, consumers, v.owner) && pel.Keys == v.pel.Keys
    ensures (forall id :: id in pel ==> pel[id].consumer != null) <==> v.AllOwned()
  {
    assert forall id :: id in pel ==> PointsTo(pel[id].consumer, id, consumers, v.owner);
  }

  /** Does every entry have a consumer? */
  method AllHaveConsumers(pel: map<Bytes, Nack>) returns (ok: bool)
    ensures ok <==> forall id :: id in pel ==> pel[id].consumer != null
  {
    var left := pel.Keys;
    while left != {}
      invariant left <= pel.Keys
      invariant forall id :: id in pel && id !in left ==> pel[id].consumer != null
      decreases |left|
    {
      var id :| id in left;
      if pel[id].consumer == null {
        return false;
      }
      left := left - {id};
    }
    return true;
  }

  method LoadHeader(rdb: Rio, z: Lzf) returns (h: Option<Header>)
    requires !rdb.readError
    modifies rdb
    ensures match ParseHeader(z, old(rdb.buf))
            case None => h == None
            case Some((v, rest)) => h == Some(v) && rdb.buf == rest && !rdb.readError
  {
    hide ParseString, ParseLen;
    var name := GenericLoadStringObject(rdb, z);
    if name.None? {
      return None;
    }
    var ms := LoadLenByRef(rdb);
    if ms.None? {
      return None;
    }
    var sequence := LoadLenByRef(rdb);
    if sequence.None? {
      return None;
    }
    var entriesRead := LoadLenByRef(rdb);
    if entriesRead.None? {
      return None;
    }
    return Some(Header(name.value, ms.value.len, sequence.value.len, entriesRead.value.len));
  }

  method LoadGlobalPel(rdb: Rio) returns (r: Option<map<Bytes, Nack>>)
    requires !rdb.readError
    modifies rdb
    ensures match ParseGlobalPel(old(rdb.buf))
            case None => r == None
            case Some((m, rest)) =>
              r.Some? && rdb.buf == rest && !rdb.readError && Holds(r.value, m) && Unowned(r.value) &&
              forall id :: id in r.value ==> fresh(r.value[id])
  {
    hide ParseLen, ParsePending, Holds, Unowned;
    var n := LoadLen(rdb);
    if n == RDB_LENERR {
      return None;
    }
    r := LoadPending(rdb, n);
  }

  method LoadStreamConsumers(rdb: Rio, z: Lzf, h: Header, pel: map<Bytes, Nack>, ghost m: map<Bytes, Delivery>)
    returns (r: Option<map<Bytes, Consumer>>)
    requires !rdb.readError && Holds(pel, m) && Unowned(pel)
    modifies rdb, pel.Values`consumer
    ensures match ParseConsumers(z, old(rdb.buf), h, m)
            case None => r == None
            case Some((v, rest)) =>
              r.Some? && rdb.buf == rest && !rdb.readError && v.pel == m && v.header == h &&
              Roster(r.value, pel, v) && Resolved(pel, r.value, v.owner)
    ensures r.Some? ==> forall name :: name in r.value ==> fresh(r.value[name])
    ensures Holds(pel, m)
  {
    hide ParseLen, ParseReaders, Roster, Resolved, Separate, Unowned;
    var n := LoadLen(rdb);
    if n == RDB_LENERR {
      return None;
    }
    r := LoadConsumers(rdb, z, n, h, pel, m);
  }

  lemma HeldKeys(pel: map<Bytes, Nack>, m: map<Bytes, Delivery>)
    requires Holds(pel, m)
    ensures Separate(pel) && pel.Keys == m.Keys
  {
  }

  /** The last check, made only under deep validation: an entry without a consumer spoils the group. */
  method FinishGroup(h: Header, pel: map<Bytes, Nack>, consumers: map<Bytes, Consumer>, deep: bool, ghost v: View)
    returns (g: Group?)
    requires h == v.header && Holds(pel, v.pel) && Roster(consumers, pel, v) && Resolved(pel, consumers, v.owner)
    ensures if deep && !v.AllOwned() then g == null else g != null && fresh(g) && Represents(g, v)
  {
    HeldKeys(pel, v.pel);
    ResolvedMeansOwned(pel, consumers, v);
    hide Roster, Resolved, Holds, View.AllOwned;
    if deep {
      var ok := AllHaveConsumers(pel);
      if !ok {
        return null;
      }
    }
    g := new Group(h, pel, consumers);
  }

  method LoadGroup(rdb: Rio, z: Lzf, deep: bool) returns (g: Group?)
    requires !rdb.readError
    modifies rdb
    ensures match ParseGroup(z, deep, old(rdb.buf))
            case None => g == null
            case Some((v, rest)) => g != null && fresh(g) && Represents(g, v) && rdb.buf == rest
  {
    hide ParseHeader, ParseGlobalPel, ParseConsumers, Holds, Separate, Roster;
    hide Resolved, Unowned, View.AllOwned, Represents;
    var h := LoadHeader(rdb, z);
    if h.None? {
      return null;
    }
    ghost var m := ParseGlobalPel(rdb.buf);
    var pel := LoadGlobalPel(rdb);
    if pel.None? {
      return null;
    }
    HeldKeys(pel.value, m.value.0);
    ghost var v := ParseConsumers(z, rdb.buf, h.value, m.value.0);
    var consumers := LoadStreamConsumers(rdb, z, h.value, pel.value, m.value.0);
    if consumers.None? {
      return null;
    }
    g := FinishGroup(h.value, pel.value, consumers.value, deep, v.value.0);
  }

  // ------------------------------------------------------------------ both ways

  ghost predicate GroupFits(g: Group)
    reads g, g.pel.Values, g.consumers.Values, set c, id | c in g.consumers.Values && id in c.pel :: c.pel[id]
  {
    HeaderStorable(g.header) && PelFits(g.pel) && ConsumersFit(g.consumers)
  }

  ghost predicate ListsGroup(data: StreamSpec.Group, g: Group)
    reads g, g.pel.Values, g.consumers.Values
  {
    data.header == g.header && ListsPel(data.pending, g.pel) && ListsConsumers(data.readers, g.consumers)
  }

  lemma ListedIsWell(data: StreamSpec.Group, g: Group)
    requires ListsGroup(data, g) && GroupFits(g)
    ensures WellListed(data) && Storable(data)
  {
    hide PendingStorable, ReaderStorable, Distinct, Matches, ListsConsumer, ConsumerFits, Ids, Names;
  }

  method SaveGroup(rdb: Rio, z: Lzf, g: Group) returns (nwritten: nat, ghost data: StreamSpec.Group)
    requires GroupFits(g)
    modifies rdb
    ensures ListsGroup(data, g) && WellListed(data) && Storable(data)
    ensures rdb.buf == old(rdb.buf) + EncodeGroup(z, data) && nwritten == |EncodeGroup(z, data)|
  {
    hide HeaderStorable, PelFits, ConsumersFit, ListsPel, ListsConsumers, EncodedEntries, EncodeHeader, EncodeLen;
    hide WellListed, EncodeReaders, EncodeGroup;
    ghost var start := rdb.buf;
    nwritten := SaveHeader(rdb, z, g.header);
    ghost var ps, rs;
    var n;
    n, ps := SaveStreamPEL(rdb, g.pel, true);
    nwritten := nwritten + n;
    n, rs := SaveStreamConsumers(rdb, z, g.consumers);
    nwritten := nwritten + n;
    data := StreamSpec.Group(g.header, ps, rs);
    ListedIsWell(data, g);
    GroupParts(z, data, start);
    assert Storable(data);
  }

  lemma {:induction false} GroupParts(z: Lzf, data: StreamSpec.Group, start: Bytes)
    requires WellListed(data)
    ensures PelStorable(data.pending) && ReadersStorable(data.readers)
    ensures |data.pending| < U64 && |data.readers| < U64
    ensures var a, b := EncodeHeader(z, data.header), EncodeLen(|data.pending|) + EncodedEntries(data.pending, true);
      var c := EncodeLen(|data.readers|) + EncodeReaders(z, data.readers);
      && start + a + b + c == start + EncodeGroup(z, data)
      && |EncodeGroup(z, data)| == |a| + |b| + |c|
  {
    hide EncodeHeader, EncodeLen, EncodePending, EncodeReaders, PendingStorable;
    hide ReaderStorable, HeaderStorable, Distinct;
    AppendThree(start, EncodeHeader(z, data.header), EncodeLen(|data.pending|) + EncodePending(data.pending),
                EncodeLen(|data.readers|) + EncodeReaders(z, data.readers));
  }

  method SaveHeader(rdb: Rio, z: Lzf, h: Header) returns (nwritten: nat)
    requires HeaderStorable(h)
    modifies rdb
    ensures rdb.buf == old(rdb.buf) + EncodeHeader(z, h) && nwritten == |EncodeHeader(z, h)|
  {
    hide EncodeString, EncodeLen;
    ghost var start := rdb.buf;
    nwritten := SaveRawString(rdb, z, h.name);
    var n := SaveLen(rdb, h.ms);
    nwritten := nwritten + n;
    n := SaveLen(rdb, h.sequence);
    nwritten := nwritten + n;
    n := SaveLen(rdb, h.entriesRead);
    nwritten := nwritten + n;
    AppendFour(start, EncodeString(z, h.name), EncodeLen(h.ms), EncodeLen(h.sequence), EncodeLen(h.entriesRead));
  }

  /** The consumers' PELs split the group's PEL between them, sharing its entries, and each entry names its holder. */
  ghost predicate Linked(g: Group)
    reads g, g.pel.Values, g.consumers.Values
  {
    && (forall name, id :: name in g.consumers && id in g.consumers[name].pel ==>
      id in g.pel && g.consumers[name].pel[id] == g.pel[id] && g.pel[id].consumer == g.consumers[name])
    && (forall id :: id in g.pel ==> HeldIn(g, id))
  }

  ghost predicate HeldIn(g: Group, id: Bytes)
    reads g, g.consumers.Values
  {
    exists name :: name in g.consumers && id in g.consumers[name].pel
  }

  ghost predicate SameConsumer(c: Consumer, d: Consumer)
    reads c, d
  {
    c.name == d.name && c.seen == d.seen && c.active == d.active && c.pel.Keys == d.pel.Keys
  }

  /** Equal in everything but the identity of the objects. */
  ghost predicate SameGroup(g: Group, h: Group)
    reads g, g.pel.Values, g.consumers.Values, h, h.pel.Values, h.consumers.Values
  {
    && g.header == h.header
    && g.pel.Keys == h.pel.Keys
    && (forall id :: id in g.pel ==> g.pel[id].time == h.pel[id].time && g.pel[id].count == h.pel[id].count)
    && g.consumers.Keys == h.consumers.Keys
    && (forall name :: name in g.consumers ==> SameConsumer(g.consumers[name], h.consumers[name]))
  }

  lemma {:induction false} PelOfAt(ps: seq<Pending>, k: nat)
    requires PelStorable(ps) && k < |ps|
    ensures ps[k].id in PelOf(ps) && PelOf(ps)[ps[k].id] == Delivery(ps[k].time, ps[k].count)
  {
    hide PendingStorable;
    if k < |ps| - 1 {
      PelOfAt(ps[..|ps| - 1], k);
    }
  }

  lemma {:induction false} PelOfListing(ps: seq<Pending>, pel: map<Bytes, Nack>)
    requires ListsPel(ps, pel)
    ensures PelOf(ps).Keys == pel.Keys
    ensures forall id :: id in pel ==> PelOf(ps)[id] == Delivery(pel[id].time, pel[id].count)
  {
    hide PelStorable;
    assert forall p :: p in ps ==> p.id in Ids(ps) && Matches(p, pel);
    forall id
      ensures id in PelOf(ps) <==> id in pel
      ensures id in pel ==> PelOf(ps)[id] == Delivery(pel[id].time, pel[id].count)
    {
      PelKeys(ps, id);
      if id in pel {
        assert id in Ids(ps);
        var p :| p in ps && p.id == id;
        var k :| 0 <= k < |ps| && ps[k] == p;
        PelOfAt(ps, k);
      }
    }
  }

  lemma {:induction false} ConsumersOfAt(rs: seq<Reader>, k: nat)
    requires ReadersStorable(rs) && k < |rs|
    ensures rs[k].name in ConsumersOf(rs) && ConsumersOf(rs)[rs[k].name] == LoadedOf(rs[k])
  {
    hide ReaderStorable, LoadedOf, Distinct;
    if k < |rs| - 1 {
      ConsumersOfAt(rs[..|rs| - 1], k);
    }
  }

  lemma {:induction false} ConsumersOfListing(rs: seq<Reader>, m: map<Bytes, Consumer>)
    requires ListsConsumers(rs, m)
    ensures ConsumersOf(rs).Keys == m.Keys
    ensures forall name :: name in m ==>
      ConsumersOf(rs)[name] == Loaded(m[name].seen, m[name].active, m[name].pel.Keys)
  {
    hide ReadersStorable;
    ConsumerNames(rs);
    forall name | name in m
      ensures ConsumersOf(rs)[name] == Loaded(m[name].seen, m[name].active, m[name].pel.Keys)
    {
      assert name in Names(rs);
      var r :| r in rs && r.name == name;
      var k :| 0 <= k < |rs| && rs[k] == r;
      ConsumersOfAt(rs, k);
    }
  }

  lemma ListerOwns(rs: seq<Reader>, g: Group, r: Reader, id: Bytes)
    requires ListsConsumers(rs, g.consumers) && Linked(g) && r in rs && id in r.ids
    ensures id in g.pel && r.name in g.consumers && g.pel[id].consumer == g.consumers[r.name]
  {
    hide ReadersStorable, ReaderStorable, Distinct, Names;
    assert ListsConsumer(r, g.consumers[r.name]) && id in Elements(r.ids);
  }

  lemma HeldIsListed(rs: seq<Reader>, g: Group, id: Bytes)
    requires ListsConsumers(rs, g.consumers) && Linked(g) && id in g.pel
    ensures exists r :: r in rs && id in r.ids
  {
    hide ReadersStorable, ReaderStorable, Distinct;
    assert HeldIn(g, id);
    var name :| name in g.consumers && id in g.consumers[name].pel;
    assert name in Names(rs);
    var r :| r in rs && r.name == name;
    assert ListsConsumer(r, g.consumers[name]) && id in Elements(r.ids);
  }

  lemma LinkedResolves(data: StreamSpec.Group, g: Group)
    requires ListsGroup(data, g) && Linked(g)
    ensures Resolvable(data)
  {
    PelOfListing(data.pending, g.pel);
    hide ListsPel, ListsConsumers, PelOf, Linked;
    forall r, id | r in data.readers && id in r.ids ensures id in PelOf(data.pending) {
      ListerOwns(data.readers, g, r, id);
    }
  }

  lemma LinkedOwned(data: StreamSpec.Group, g: Group)
    requires ListsGroup(data, g) && Linked(g)
    ensures AllOwned(data)
  {
    PelOfListing(data.pending, g.pel);
    hide ListsPel, ListsConsumers, PelOf, Linked;
    forall id | id in PelOf(data.pending) ensures exists r :: r in data.readers && id in r.ids {
      HeldIsListed(data.readers, g, id);
    }
  }

  lemma LinkedListing(data: StreamSpec.Group, g: Group)
    requires ListsGroup(data, g) && Linked(g)
    ensures Resolvable(data) && AllOwned(data) && Unshared(data)
  {
    hide ListsPel, ListsConsumers, PelOf, Linked, Resolvable, AllOwned;
    LinkedResolves(data, g);
    LinkedOwned(data, g);
    var rs := data.readers;
    forall i, j, id | 0 <= i < j < |rs| && id in rs[i].ids ensures id !in rs[j].ids {
      NotBoth(rs, g, i, j, id);
    }
  }

  /** Whoever lists an entry owns it, so two consumers with different names cannot both list it. */
  lemma NotBoth(rs: seq<Reader>, g: Group, i: nat, j: nat, id: Bytes)
    requires ListsConsumers(rs, g.consumers) && Linked(g) && i < j < |rs| && id in rs[i].ids
    ensures id !in rs[j].ids
  {
    hide ReaderStorable, Linked;
    assert rs[i] in rs && rs[j] in rs && rs[i].name != rs[j].name;
    assert ListsConsumer(rs[i], g.consumers[rs[i].name]) && ListsConsumer(rs[j], g.consumers[rs[j].name]);
    ListerOwns(rs, g, rs[i], id);
    if id in rs[j].ids {
      ListerOwns(rs, g, rs[j], id);
    }
  }

  /** An entry was saved under the consumer that held it, and its owner in the dump is that consumer. */
  lemma OwnerInDump(data: StreamSpec.Group, g: Group, id: Bytes)
    requires ListsGroup(data, g) && WellListed(data) && Linked(g) && id in g.pel
    ensures id in OwnersOf(data.readers) && OwnersOf(data.readers)[id] in g.consumers
    ensures g.pel[id].consumer == g.consumers[OwnersOf(data.readers)[id]]
  {
    LinkedListing(data, g);
    hide WellListed, Unshared, Resolvable, AllOwned, ListsPel, ListsConsumers, Linked, OwnersOf;
    HeldIsListed(data.readers, g, id);
    var r :| r in data.readers && id in r.ids;
    ListerOwns(data.readers, g, r, id);
    OwnerOfLister(data, r, id);
  }

  lemma OwnerOfLister(data: StreamSpec.Group, r: Reader, id: Bytes)
    requires WellListed(data) && Unshared(data) && r in data.readers && id in r.ids
    ensures id in OwnersOf(data.readers) && OwnersOf(data.readers)[id] == r.name
  {
    hide WellListed, Unshared, OwnersOf;
    OwnerIsTheLister(data);
  }

  lemma LoadedIsSame(data: StreamSpec.Group, g: Group, h: Group)
    requires ListsGroup(data, g) && Represents(h, ViewOf(data))
    ensures SameGroup(g, h)
  {
    PelOfListing(data.pending, g.pel);
    ConsumersOfListing(data.readers, g.consumers);
    hide ListsPel, ListsConsumers, PelOf, ConsumersOf, OwnersOf, Resolved, Separate;
    ConsumersMatch(data, g, h);
  }

  lemma ConsumersMatch(data: StreamSpec.Group, g: Group, h: Group)
    requires ListsConsumers(data.readers, g.consumers) && Roster(h.consumers, h.pel, ViewOf(data))
    ensures g.consumers.Keys == h.consumers.Keys
    ensures forall name :: name in g.consumers ==> SameConsumer(g.consumers[name], h.consumers[name])
  {
    ConsumersOfListing(data.readers, g.consumers);
    assert forall name :: name in g.consumers ==> ConsumersOf(data.readers)[name].ids == g.consumers[name].pel.Keys;
    hide PelOf, ConsumersOf, OwnersOf;
    forall name | name in g.consumers
      ensures SameConsumer(g.consumers[name], h.consumers[name])
    {
      assert IsReader(h.consumers[name], name, ViewOf(data).consumers[name], h.pel);
      NameIsKey(data.readers, g.consumers, name);
    }
  }

  lemma NameIsKey(rs: seq<Reader>, m: map<Bytes, Consumer>, name: Bytes)
    requires ListsConsumers(rs, m) && name in m
    ensures m[name].name == name
  {
    assert name in Names(rs);
    hide ReadersStorable, Names;
    var r :| r in rs && r.name == name;
    assert ListsConsumer(r, m[name]);
  }

  /** The same consumers hold the same entries. */
  ghost predicate SameOwners(g: Group, h: Group)
    requires g.pel.Keys == h.pel.Keys
    reads g, g.pel.Values, h, h.pel.Values
  {
    forall id :: id in g.pel ==>
      h.pel[id].consumer != null && g.pel[id].consumer != null && h.pel[id].consumer.name == g.pel[id].consumer.name
  }

  lemma LoadedOwner(data: StreamSpec.Group, g: Group, h: Group, id: Bytes)
    requires ListsGroup(data, g) && WellListed(data) && Linked(g) && Represents(h, ViewOf(data))
    requires id in g.pel
    ensures id in h.pel && h.pel[id].consumer != null && g.pel[id].consumer != null
    ensures var name := h.pel[id].consumer.name;
      && name == g.pel[id].consumer.name
      && name in h.consumers && name in g.consumers
      && h.pel[id].consumer == h.consumers[name] && g.pel[id].consumer == g.consumers[name]
  {
    LoadedIsSame(data, g, h);
    OwnerInDump(data, g, id);
    assert PointsTo(h.pel[id].consumer, id, h.consumers, OwnersOf(data.readers));
    NameIsKey(data.readers, g.consumers, OwnersOf(data.readers)[id]);
    assert SameConsumer(g.consumers[OwnersOf(data.readers)[id]], h.consumers[OwnersOf(data.readers)[id]]);
    hide ListsPel, ListsConsumers, WellListed, Linked, Holds, Roster, Resolved, OwnersOf, PelOf, ConsumersOf, SameGroup;
  }

  lemma LoadedIsLinked(data: StreamSpec.Group, g: Group, h: Group)
    requires ListsGroup(data, g) && WellListed(data) && Linked(g) && Represents(h, ViewOf(data))
    ensures SameGroup(g, h) && SameOwners(g, h) && Linked(h)
  {
    LoadedIsSame(data, g, h);
    forall id | id in g.pel
      ensures h.pel[id].consumer != null && g.pel[id].consumer != null
      ensures h.pel[id].consumer.name == g.pel[id].consumer.name
    {
      LoadedOwner(data, g, h, id);
    }
    forall name, id | name in h.consumers && id in h.consumers[name].pel
      ensures id in h.pel && h.consumers[name].pel[id] == h.pel[id] && h.pel[id].consumer == h.consumers[name]
    {
      LoadedLink(data, g, h, name, id);
    }
    forall id | id in h.pel
      ensures HeldIn(h, id)
    {
      assert HeldIn(g, id);
      var name :| name in g.consumers && id in g.consumers[name].pel;
      assert SameConsumer(g.consumers[name], h.consumers[name]);
    }
  }

  lemma LoadedLink(data: StreamSpec.Group, g: Group, h: Group, name: Bytes, id: Bytes)
    requires ListsGroup(data, g) && WellListed(data) && Linked(g) && Represents(h, ViewOf(data))
    requires name in h.consumers && id in h.consumers[name].pel
    ensures id in h.pel && h.consumers[name].pel[id] == h.pel[id] && h.pel[id].consumer == h.consumers[name]
  {
    LoadedIsSame(data, g, h);
    assert SameConsumer(g.consumers[name], h.consumers[name]);
    assert IsReader(h.consumers[name], name, ViewOf(data).consumers[name], h.pel);
    assert id in g.pel && g.pel[id].consumer == g.consumers[name];
    NameIsKey(data.readers, g.consumers, name);
    hide ListsConsumers, Linked, Roster, Resolved, SameGroup, SameConsumer;
    LoadedOwner(data, g, h, id);
  }

  /**
   * Save followed by load, whatever order the radix trees are walked in: both levels come back, every entry is again
   * one object shared by the two levels, and it points to the consumer that lists it.
   */
  method SaveThenLoadGroup(z: Lzf, g: Group, deep: bool) returns (h: Group?)
    requires z.InversePair() && GroupFits(g) && Linked(g)
    ensures h != null && fresh(h) && SameGroup(g, h) && SameOwners(g, h) && Linked(h)
  {
    var rdb := new Rio([]);
    hide Lzf.InversePair, Storable, HeaderStorable, PelFits, ConsumersFit, ListsPel;
    hide ListsConsumers, WellListed, EncodeGroup, ParseGroup;
    hide Holds, Roster, Resolved, Linked, PelOf, ConsumersOf, OwnersOf;
    hide SameGroup, SameOwners, Resolvable, AllOwned, Unshared;
    ghost var data;
    var n;
    n, data := SaveGroup(rdb, z, g);
    ghost var bytes := EncodeGroup(z, data);
    assert rdb.buf == [] + bytes == bytes + [];
    LinkedListing(data, g);
    GroupRoundTrip(z, deep, data, []);
    var dump := new Rio(rdb.buf);
    h := LoadGroup(dump, z, deep);
    LoadedIsLinked(data, g, h);
  }
}
