/**
 * Consumer groups of a stream in the dump format (rdb.c). A group has a global list of pending entries (PEL); each
 * consumer has a local PEL whose entries are shared with the global one. Only the global PEL is saved in full, so the
 * loader has to work out again which consumer owns which entry.
 */
module StreamSpec {
  import opened Base
  import opened RdbCodec

  const ID_SIZE := 16

  datatype Pending = Pending(id: Bytes, time: int, count: nat)

  datatype Reader = Reader(name: Bytes, seen: int, active: int, ids: seq<Bytes>)

  datatype Header = Header(name: Bytes, ms: nat, sequence: nat, entriesRead: nat)

  /** A group as its radix trees list it: keys in some order, without repetition. */
  datatype Group = Group(header: Header, pending: seq<Pending>, readers: seq<Reader>)

  // ------------------------------------------------------------------ what is written

  predicate PendingStorable(p: Pending) {
    |p.id| == ID_SIZE && Int64(p.time) && p.count < U64
  }

  predicate ReaderStorable(r: Reader) {
    && Fits(r.name) && Int64(r.seen) && Int64(r.active)
    && |r.ids| < RDB_LENERR
    && forall id :: id in r.ids ==> |id| == ID_SIZE
  }

  predicate HeaderStorable(h: Header) {
    Fits(h.name) && h.ms < U64 && h.sequence < U64 && h.entriesRead < U64
  }

  predicate Storable(g: Group) {
    && HeaderStorable(g.header)
    && |g.pending| < RDB_LENERR && (forall p :: p in g.pending ==> PendingStorable(p))
    && |g.readers| < RDB_LENERR && (forall r :: r in g.readers ==> ReaderStorable(r))
  }

  function EncodePendingOne(p: Pending): (s: Bytes)
    requires PendingStorable(p)
  {
    p.id + EncodeTime(p.time) + EncodeLen(p.count)
  }

  function EncodePending(ps: seq<Pending>): (s: Bytes)
    requires forall p :: p in ps ==> PendingStorable(p)
  {
    if ps == [] then [] else EncodePending(ps[..|ps| - 1]) + EncodePendingOne(ps[|ps| - 1])
  }

  function EncodeIds(ids: seq<Bytes>): (s: Bytes) {
    if ids == [] then [] else EncodeIds(ids[..|ids| - 1]) + ids[|ids| - 1]
  }

  function EncodeReader(z: Lzf, r: Reader): (s: Bytes)
    requires ReaderStorable(r)
  {
    EncodeString(z, r.name) + EncodeTime(r.seen) + EncodeTime(r.active) + (EncodeLen(|r.ids|) + EncodeIds(r.ids))
  }

  function EncodeReaders(z: Lzf, rs: seq<Reader>): (s: Bytes)
    requires forall r :: r in rs ==> ReaderStorable(r)
  {
    if rs == [] then [] else EncodeReaders(z, rs[..|rs| - 1]) + EncodeReader(z, rs[|rs| - 1])
  }

  function EncodeHeader(z: Lzf, h: Header): (s: Bytes)
    requires HeaderStorable(h)
  {
    EncodeString(z, h.name) + EncodeLen(h.ms) + EncodeLen(h.sequence) + EncodeLen(h.entriesRead)
  }

  function EncodeGroup(z: Lzf, g: Group): (s: Bytes)
    requires Storable(g)
  {
    EncodeHeader(z, g.header) + (EncodeLen(|g.pending|) + EncodePending(g.pending)) +
    (EncodeLen(|g.readers|) + EncodeReaders(z, g.readers))
  }

  /** The fields of a group's header, of a pending entry and of a consumer that has one entry, in the order written. */
  lemma {:induction false} FieldFormat(z: Lzf, h: Header, p: Pending, r: Reader)
    requires HeaderStorable(h) && PendingStorable(p) && ReaderStorable(r) && r.ids == [p.id]
    ensures EncodeHeader(z, h) == EncodeString(z, h.name) + EncodeLen(h.ms) + EncodeLen(h.sequence) + EncodeLen(h.entriesRead)
    ensures |p.id| == 16 && EncodePendingOne(p) == p.id + EncodeTime(p.time) + EncodeLen(p.count)
    ensures EncodeReader(z, r) == EncodeString(z, r.name) + EncodeTime(r.seen) + EncodeTime(r.active) + [1] + p.id
  {
    hide EncodeString, EncodeLen, EncodeTime;
    LenFormat(1);
    assert EncodeIds([p.id]) == [] + p.id;
  }

  /** A group with one pending entry and one consumer. */
  lemma {:induction false} GroupFormat(z: Lzf, h: Header, p: Pending, r: Reader)
    requires HeaderStorable(h) && PendingStorable(p) && ReaderStorable(r)
    ensures Storable(Group(h, [p], [r]))
    ensures EncodeGroup(z, Group(h, [p], [r])) ==
      EncodeHeader(z, h) + [1] + EncodePendingOne(p) + [1] + EncodeReader(z, r)
  {
    hide EncodeHeader, EncodePendingOne, EncodeReader, EncodeLen, HeaderStorable, PendingStorable, ReaderStorable;
    LenFormat(1);
    assert EncodePending([p]) == [] + EncodePendingOne(p);
    assert EncodeReaders(z, [r]) == [] + EncodeReader(z, r);
  }

  // ------------------------------------------------------------------ what is loaded

  datatype Delivery = Delivery(time: int, count: nat)

  datatype Loaded = Loaded(seen: int, active: int, ids: set<Bytes>)

  /** A loaded group; owner names the consumer that an entry of the global PEL was last resolved to. */
  datatype View = View(header: Header, pel: map<Bytes, Delivery>, consumers: map<Bytes, Loaded>, owner: map<Bytes, Bytes>)
  {
    predicate AllOwned() {
      forall id :: id in pel ==> id in owner
    }

    function Enlist(name: Bytes, c: Loaded): View {
      this.(consumers := consumers[name := c], owner := owner + Owning(c.ids, name))
    }
  }

  /** A counter or half of an ID: here the value RDB_LENERR is not taken for an error. */
  function ParseCounter(s: Bytes): (r: Option<(nat, Bytes)>)
    ensures r.Some? ==> |r.value.1| < |s|
  {
    match ParseLen(s)
    case None => None
    case Some((code, rest)) => Some((code.len, rest))
  }

  function ParseHeader(z: Lzf, s: Bytes): (r: Option<(Header, Bytes)>)
    ensures r.Some? ==> |r.value.1| < |s|
  {
    match ParseString(z, s)
    case None => None
    case Some((name, s1)) =>
      match ParseCounter(s1)
      case None => None
      case Some((ms, s2)) =>
        match ParseCounter(s2)
        case None => None
        case Some((sequence, s3)) =>
          match ParseCounter(s3)
          case None => None
          case Some((entriesRead, s4)) => Some((Header(name, ms, sequence, entriesRead), s4))
  }

  function ParsePendingOne(s: Bytes): (r: Option<(Pending, Bytes)>)
    ensures r.Some? ==> |r.value.1| < |s| && |r.value.0.id| == ID_SIZE
  {
    if |s| < ID_SIZE then None
    else match ParseTime(s[ID_SIZE..])
      case None => None
      case Some((time, s1)) =>
        match ParseCounter(s1)
        case None => None
        case Some((count, s2)) => Some((Pending(s[..ID_SIZE], time, count), s2))
  }

  /** One more entry of the global PEL; a repeated ID is an error. */
  function AddPending(s: Bytes, pel: map<Bytes, Delivery>): (r: Option<(map<Bytes, Delivery>, Bytes)>) {
    match ParsePendingOne(s)
    case None => None
    case Some((p, rest)) => if p.id in pel then None else Some((pel[p.id := Delivery(p.time, p.count)], rest))
  }

  function ParsePending(s: Bytes, n: nat): (r: Option<(map<Bytes, Delivery>, Bytes)>) {
    if n == 0 then Some((map[], s))
    else match ParsePending(s, n - 1)
      case None => None
      case Some((pel, rest)) => AddPending(rest, pel)
  }

  /** One more ID of a consumer's PEL; it has to be in the global PEL and new to this consumer. */
  function AddId(s: Bytes, pel: set<Bytes>, ids: set<Bytes>): (r: Option<(set<Bytes>, Bytes)>) {
    if |s| < ID_SIZE || s[..ID_SIZE] !in pel || s[..ID_SIZE] in ids then None
    else Some((ids + {s[..ID_SIZE]}, s[ID_SIZE..]))
  }

  function ParseIds(s: Bytes, n: nat, pel: set<Bytes>): (r: Option<(set<Bytes>, Bytes)>) {
    if n == 0 then Some(({}, s))
    else match ParseIds(s, n - 1, pel)
      case None => None
      case Some((ids, rest)) => AddId(rest, pel, ids)
  }

  function ParseReader(z: Lzf, s: Bytes, pel: set<Bytes>): (r: Option<(Bytes, Loaded, Bytes)>) {
    match ParseString(z, s)
    case None => None
    case Some((name, s1)) =>
      match ParseTime(s1)
      case None => None
      case Some((seen, s2)) =>
        match ParseTime(s2)
        case None => None
        case Some((active, s3)) =>
          match ParseCount(s3)
          case None => None
          case Some((n, s4)) =>
            match ParseIds(s4, n, pel)
            case None => None
            case Some((ids, s5)) => Some((name, Loaded(seen, active, ids), s5))
  }

  function Owning(ids: set<Bytes>, name: Bytes): (r: map<Bytes, Bytes>) {
    map id | id in ids :: name
  }

  /** One more consumer; a repeated name is an error, an entry listed again changes hands. */
  function AddReader(z: Lzf, s: Bytes, v: View): (r: Option<(View, Bytes)>)
    ensures r.Some? ==> r.value.0.pel == v.pel && r.value.0.header == v.header
  {
    match ParseReader(z, s, v.pel.Keys)
    case None => None
    case Some((name, c, rest)) =>
      if name in v.consumers then None
      else Some((v.Enlist(name, c), rest))
  }

  function ParseReaders(z: Lzf, s: Bytes, n: nat, h: Header, pel: map<Bytes, Delivery>): (r: Option<(View, Bytes)>) {
    if n == 0 then Some((View(h, pel, map[], map[]), s))
    else match ParseReaders(z, s, n - 1, h, pel)
      case None => None
      case Some((v, rest)) => AddReader(z, rest, v)
  }

  function ParseGlobalPel(s: Bytes): (r: Option<(map<Bytes, Delivery>, Bytes)>) {
    match ParseCount(s)
    case None => None
    case Some((n, rest)) => ParsePending(rest, n)
  }

  function ParseConsumers(z: Lzf, s: Bytes, h: Header, pel: map<Bytes, Delivery>): (r: Option<(View, Bytes)>) {
    match ParseCount(s)
    case None => None
    case Some((n, rest)) => ParseReaders(z, rest, n, h, pel)
  }

  function ParseGroup(z: Lzf, deep: bool, s: Bytes): (r: Option<(View, Bytes)>) {
    match ParseHeader(z, s)
    case None => None
    case Some((h, s1)) =>
      match ParseGlobalPel(s1)
      case None => None
      case Some((pel, s2)) =>
        match ParseConsumers(z, s2, h, pel)
        case None => None
        case Some((v, s3)) => if deep && !v.AllOwned() then None else Some((v, s3))
  }

  // ------------------------------------------------------------------ the group a listing stands for

  ghost predicate WellListed(g: Group) {
    && Storable(g)
    && (forall i, j :: 0 <= i < j < |g.pending| ==> g.pending[i].id != g.pending[j].id)
    && (forall i, j :: 0 <= i < j < |g.readers| ==> g.readers[i].name != g.readers[j].name)
    && (forall r :: r in g.readers ==> Distinct(r.ids))
  }

  function PelOf(ps: seq<Pending>): (r: map<Bytes, Delivery>) {
    if ps == [] then map[]
    else
      var p := ps[|ps| - 1];
      PelOf(ps[..|ps| - 1])[p.id := Delivery(p.time, p.count)]
  }

  function LoadedOf(r: Reader): Loaded {
    Loaded(r.seen, r.active, Elements(r.ids))
  }

  function ConsumersOf(rs: seq<Reader>): (r: map<Bytes, Loaded>) {
    if rs == [] then map[]
    else
      var c := rs[|rs| - 1];
      ConsumersOf(rs[..|rs| - 1])[c.name := LoadedOf(c)]
  }

  /** Each listed entry goes to the last consumer that lists it. */
  function OwnersOf(rs: seq<Reader>): (r: map<Bytes, Bytes>) {
    if rs == [] then map[]
    else OwnersOf(rs[..|rs| - 1]) + Owning(Elements(rs[|rs| - 1].ids), rs[|rs| - 1].name)
  }

  function ViewOf(g: Group): View {
    ViewWith(g.header, PelOf(g.pending), g.readers)
  }

  /** Consumers list only entries of the global PEL. */
  ghost predicate Resolvable(g: Group) {
    forall r, id :: r in g.readers && id in r.ids ==> id in PelOf(g.pending)
  }

  /** Every entry of the global PEL is listed by some consumer. */
  ghost predicate AllOwned(g: Group) {
    forall id :: id in PelOf(g.pending) ==> exists r :: r in g.readers && id in r.ids
  }

  /** No entry is listed by two consumers. */
  ghost predicate Unshared(g: Group) {
    forall i, j, id :: 0 <= i < j < |g.readers| && id in g.readers[i].ids ==> id !in g.readers[j].ids
  }

  // ------------------------------------------------------------------ round trip

  lemma CounterRoundTrip(n: nat, rest: Bytes)
    requires n < U64
    ensures ParseCounter(EncodeLen(n) + rest) == Some((n, rest))
  {
    LenRoundTrip(n, rest);
  }

  lemma HeaderRoundTrip(z: Lzf, h: Header, rest: Bytes)
    requires z.InversePair() && HeaderStorable(h)
    ensures ParseHeader(z, EncodeHeader(z, h) + rest) == Some((h, rest))
  {
    hide Lzf.InversePair, EncodeString, ParseString, EncodeLen, ParseCounter;
    var a, b, c, d := EncodeString(z, h.name), EncodeLen(h.ms), EncodeLen(h.sequence), EncodeLen(h.entriesRead);
    ConcatAssoc(a, b, c, d, rest);
    StringRoundTrip(z, h.name, b + (c + (d + rest)));
    CounterRoundTrip(h.ms, c + (d + rest));
    CounterRoundTrip(h.sequence, d + rest);
    CounterRoundTrip(h.entriesRead, rest);
  }

  lemma PendingOneRoundTrip(p: Pending, rest: Bytes)
    requires PendingStorable(p)
    ensures ParsePendingOne(EncodePendingOne(p) + rest) == Some((p, rest))
  {
    hide EncodeLen, ParseCounter, EncodeTime, ParseTime;
    var s := EncodePendingOne(p) + rest;
    var tail := EncodeTime(p.time) + (EncodeLen(p.count) + rest);
    assert s == p.id + tail;
    assert s[..ID_SIZE] == p.id && s[ID_SIZE..] == tail;
    TimeRoundTrip(p.time, EncodeLen(p.count) + rest);
    CounterRoundTrip(p.count, rest);
  }

  lemma PendingStep(p: Pending, pel: map<Bytes, Delivery>, rest: Bytes)
    requires PendingStorable(p) && p.id !in pel
    ensures AddPending(EncodePendingOne(p) + rest, pel) == Some((pel[p.id := Delivery(p.time, p.count)], rest))
  {
    hide EncodePendingOne, ParsePendingOne;
    PendingOneRoundTrip(p, rest);
  }

  lemma {:induction false} PelKeys(ps: seq<Pending>, id: Bytes)
    ensures id in PelOf(ps) <==> exists p :: p in ps && p.id == id
  {
    if ps != [] {
      var init, p := ps[..|ps| - 1], ps[|ps| - 1];
      assert ps == init + [p];
      PelKeys(init, id);
    }
  }

  ghost predicate PelStorable(ps: seq<Pending>) {
    && (forall p :: p in ps ==> PendingStorable(p))
    && (forall i, j :: 0 <= i < j < |ps| ==> ps[i].id != ps[j].id)
  }

  lemma LastPending(ps: seq<Pending>)
    requires ps != [] && PelStorable(ps)
    ensures var init, p := ps[..|ps| - 1], ps[|ps| - 1];
      && PelStorable(init) && (forall q :: q in init ==> PendingStorable(q)) && PendingStorable(p) && p.id !in PelOf(init)
      && EncodePending(ps) == EncodePending(init) + EncodePendingOne(p)
      && PelOf(ps) == PelOf(init)[p.id := Delivery(p.time, p.count)]
  {
    hide PendingStorable, EncodePendingOne;
    var init, p := ps[..|ps| - 1], ps[|ps| - 1];
    assert ps == init + [p];
    PelKeys(init, p.id);
  }

  lemma {:induction false} NonePending(ps: seq<Pending>, rest: Bytes)
    requires ps == []
    ensures PelStorable(ps) && EncodePending(ps) + rest == rest && PelOf(ps) == map[]
  {
  }

  lemma {:induction false} PendingRoundTrip(ps: seq<Pending>, rest: Bytes)
    requires PelStorable(ps)
    ensures ParsePending(EncodePending(ps) + rest, |ps|) == Some((PelOf(ps), rest))
  {
    hide PendingStorable, PelStorable, EncodePendingOne, EncodePending, AddPending, PelOf;
    if ps == [] {
      NonePending(ps, rest);
    } else {
      var init, p := ps[..|ps| - 1], ps[|ps| - 1];
      LastPending(ps);
      PendingRoundTrip(init, EncodePendingOne(p) + rest);
      AppendTwo(EncodePending(init), EncodePendingOne(p), rest);
      PendingStep(p, PelOf(init), rest);
    }
  }

  lemma IdStep(id: Bytes, pel: set<Bytes>, ids: set<Bytes>, rest: Bytes)
    requires |id| == ID_SIZE && id !in ids
    ensures AddId(id + rest, pel, ids) == if id in pel then Some((ids + {id}, rest)) else None
  {
    assert (id + rest)[..ID_SIZE] == id && (id + rest)[ID_SIZE..] == rest;
  }

  ghost predicate IdsIn(ids: seq<Bytes>, pel: set<Bytes>) {
    forall id :: id in ids ==> id in pel
  }

  lemma LastId(ids: seq<Bytes>, pel: set<Bytes>)
    requires ids != [] && Distinct(ids)
    ensures var init, last := ids[..|ids| - 1], ids[|ids| - 1];
      && Distinct(init) && last !in Elements(init) && Elements(ids) == Elements(init) + {last}
      && EncodeIds(ids) == EncodeIds(init) + last
      && (IdsIn(ids, pel) <==> IdsIn(init, pel) && last in pel)
  {
    var init, last := ids[..|ids| - 1], ids[|ids| - 1];
    assert ids == init + [last];
    DistinctAppend(init, last);
    ElementsAppend(init, last);
  }

  lemma {:induction false} NoIds(ids: seq<Bytes>, pel: set<Bytes>, rest: Bytes)
    requires ids == []
    ensures EncodeIds(ids) + rest == rest && Elements(ids) == {} && IdsIn(ids, pel)
  {
  }

  lemma {:induction false} IdsRoundTrip(ids: seq<Bytes>, pel: set<Bytes>, rest: Bytes)
    requires Distinct(ids) && forall id :: id in ids ==> |id| == ID_SIZE
    ensures ParseIds(EncodeIds(ids) + rest, |ids|, pel) ==
            if IdsIn(ids, pel) then Some((Elements(ids), rest)) else None
  {
    hide Distinct, Elements, IdsIn, AddId, EncodeIds;
    if ids == [] {
      NoIds(ids, pel, rest);
    } else {
      var init, last := ids[..|ids| - 1], ids[|ids| - 1];
      LastId(ids, pel);
      assert ids == init + [last];
      IdsRoundTrip(init, pel, last + rest);
      AppendTwo(EncodeIds(init), last, rest);
      IdStep(last, pel, Elements(init), rest);
    }
  }

  lemma ReaderRoundTrip(z: Lzf, r: Reader, pel: set<Bytes>, rest: Bytes)
    requires z.InversePair() && ReaderStorable(r) && Distinct(r.ids)
    ensures ParseReader(z, EncodeReader(z, r) + rest, pel) ==
            if forall id :: id in r.ids ==> id in pel
            then Some((r.name, LoadedOf(r), rest)) else None
  {
    hide Lzf.InversePair, EncodeString, ParseString, EncodeLen, EncodeTime, ParseTime, ParseCount, EncodeIds, ParseIds;
    var a, b, c := EncodeString(z, r.name), EncodeTime(r.seen), EncodeTime(r.active);
    var d, e := EncodeLen(|r.ids|), EncodeIds(r.ids);
    var s2 := d + (e + rest);
    AppendTwo(d, e, rest);
    ConcatAssoc(a, b, c, d + e, rest);
    assert EncodeReader(z, r) + rest == a + (b + (c + s2));
    StringRoundTrip(z, r.name, b + (c + s2));
    TimeRoundTrip(r.seen, c + s2);
    TimeRoundTrip(r.active, s2);
    CountRoundTrip(|r.ids|, e + rest);
    IdsRoundTrip(r.ids, pel, rest);
  }

  lemma {:induction false} ConsumerNames(rs: seq<Reader>)
    ensures ConsumersOf(rs).Keys == set r | r in rs :: r.name
  {
    if rs != [] {
      var init, r := rs[..|rs| - 1], rs[|rs| - 1];
      assert rs == init + [r];
      ConsumerNames(init);
    }
  }

  ghost predicate AllIn(rs: seq<Reader>, pel: set<Bytes>) {
    forall r, id :: r in rs && id in r.ids ==> id in pel
  }

  lemma ReaderStep(z: Lzf, r: Reader, v: View, rest: Bytes)
    requires z.InversePair() && ReaderStorable(r) && Distinct(r.ids) && r.name !in v.consumers
    ensures AddReader(z, EncodeReader(z, r) + rest, v) ==
            if forall id :: id in r.ids ==> id in v.pel.Keys
            then Some((v.Enlist(r.name, LoadedOf(r)), rest)) else None
  {
    hide Lzf.InversePair, ParseReader, EncodeReader;
    ReaderRoundTrip(z, r, v.pel.Keys, rest);
  }

  ghost predicate ReadersStorable(rs: seq<Reader>) {
    && (forall r :: r in rs ==> ReaderStorable(r) && Distinct(r.ids))
    && (forall i, j :: 0 <= i < j < |rs| ==> rs[i].name != rs[j].name)
  }

  function ViewWith(h: Header, pel: map<Bytes, Delivery>, rs: seq<Reader>): View {
    View(h, pel, ConsumersOf(rs), OwnersOf(rs))
  }

  lemma LastReader(z: Lzf, rs: seq<Reader>, h: Header, pel: map<Bytes, Delivery>)
    requires rs != [] && ReadersStorable(rs)
    ensures var init, r := rs[..|rs| - 1], rs[|rs| - 1];
      && ReadersStorable(init) && (forall q :: q in init ==> ReaderStorable(q)) && ReaderStorable(r) && Distinct(r.ids)
      && EncodeReaders(z, rs) == EncodeReaders(z, init) + EncodeReader(z, r)
      && ViewWith(h, pel, rs) == ViewWith(h, pel, init).Enlist(r.name, LoadedOf(r))
      && r.name !in ViewWith(h, pel, init).consumers && ViewWith(h, pel, init).pel == pel
      && (AllIn(rs, pel.Keys) <==> AllIn(init, pel.Keys) && forall id :: id in r.ids ==> id in pel.Keys)
  {
    hide ReaderStorable, EncodeReader, Distinct;
    var init, r := rs[..|rs| - 1], rs[|rs| - 1];
    assert rs == init + [r];
    ConsumerNames(init);
  }

  lemma {:induction false} NoReaders(z: Lzf, rs: seq<Reader>, h: Header, pel: map<Bytes, Delivery>, rest: Bytes)
    requires rs == []
    ensures ReadersStorable(rs) && EncodeReaders(z, rs) + rest == rest && AllIn(rs, pel.Keys)
    ensures ViewWith(h, pel, rs) == View(h, pel, map[], map[])
  {
  }

  lemma {:induction false} ReadersRoundTrip(z: Lzf, rs: seq<Reader>, h: Header, pel: map<Bytes, Delivery>, rest: Bytes)
    requires z.InversePair() && ReadersStorable(rs)
    ensures ParseReaders(z, EncodeReaders(z, rs) + rest, |rs|, h, pel) ==
            if AllIn(rs, pel.Keys) then Some((ViewWith(h, pel, rs), rest)) else None
  {
    hide Lzf.InversePair, ReaderStorable, ReadersStorable, EncodeReader, EncodeReaders, AddReader, Distinct, AllIn;
    hide ViewWith, View.Enlist;
    if rs == [] {
      NoReaders(z, rs, h, pel, rest);
    } else {
      var init, r := rs[..|rs| - 1], rs[|rs| - 1];
      LastReader(z, rs, h, pel);
      ReadersRoundTrip(z, init, h, pel, EncodeReader(z, r) + rest);
      AppendTwo(EncodeReaders(z, init), EncodeReader(z, r), rest);
      ReaderStep(z, r, ViewWith(h, pel, init), rest);
    }
  }

  lemma {:induction false} OwnedMeansListed(rs: seq<Reader>, id: Bytes)
    ensures id in OwnersOf(rs) <==> exists r :: r in rs && id in r.ids
  {
    if rs != [] {
      var init, r := rs[..|rs| - 1], rs[|rs| - 1];
      assert rs == init + [r];
      OwnedMeansListed(init, id);
    }
  }

  lemma OwnersCover(g: Group)
    requires Resolvable(g)
    ensures ViewOf(g).AllOwned() <==> AllOwned(g)
  {
    hide OwnersOf, PelOf;
    forall id
      ensures id in OwnersOf(g.readers) <==> exists r :: r in g.readers && id in r.ids
    {
      OwnedMeansListed(g.readers, id);
    }
  }

  lemma {:induction false} GlobalPelRoundTrip(ps: seq<Pending>, rest: Bytes)
    requires |ps| < RDB_LENERR && PelStorable(ps)
    ensures ParseGlobalPel(EncodeLen(|ps|) + EncodePending(ps) + rest) == Some((PelOf(ps), rest))
  {
    hide EncodeLen, ParseCount, EncodePending, ParsePending, PelOf;
    AppendTwo(EncodeLen(|ps|), EncodePending(ps), rest);
    CountRoundTrip(|ps|, EncodePending(ps) + rest);
    PendingRoundTrip(ps, rest);
  }

  lemma {:induction false} ConsumersRoundTrip(z: Lzf, rs: seq<Reader>, h: Header, pel: map<Bytes, Delivery>, rest: Bytes)
    requires z.InversePair() && |rs| < RDB_LENERR && ReadersStorable(rs)
    ensures ParseConsumers(z, EncodeLen(|rs|) + EncodeReaders(z, rs) + rest, h, pel) ==
            if AllIn(rs, pel.Keys) then Some((ViewWith(h, pel, rs), rest)) else None
  {
    hide EncodeLen, ParseCount, EncodeReaders, ParseReaders, ConsumersOf, OwnersOf, AllIn;
    AppendTwo(EncodeLen(|rs|), EncodeReaders(z, rs), rest);
    CountRoundTrip(|rs|, EncodeReaders(z, rs) + rest);
    ReadersRoundTrip(z, rs, h, pel, rest);
  }

  ghost function EncodedPel(g: Group): Bytes
    requires WellListed(g)
  {
    EncodeLen(|g.pending|) + EncodePending(g.pending)
  }

  ghost function EncodedConsumers(z: Lzf, g: Group): Bytes
    requires WellListed(g)
  {
    EncodeLen(|g.readers|) + EncodeReaders(z, g.readers)
  }

  lemma HeaderPart(z: Lzf, g: Group, rest: Bytes)
    requires z.InversePair() && WellListed(g)
    ensures ParseHeader(z, EncodeHeader(z, g.header) + rest) == Some((g.header, rest))
  {
    HeaderRoundTrip(z, g.header, rest);
  }

  lemma PelPart(g: Group, rest: Bytes)
    requires WellListed(g)
    ensures ParseGlobalPel(EncodedPel(g) + rest) == Some((PelOf(g.pending), rest))
  {
    hide ParseGlobalPel, PelOf, EncodeLen, EncodePending, PendingStorable;
    GlobalPelRoundTrip(g.pending, rest);
  }

  lemma ConsumersPart(z: Lzf, g: Group, rest: Bytes)
    requires z.InversePair() && WellListed(g)
    ensures ParseConsumers(z, EncodedConsumers(z, g) + rest, g.header, PelOf(g.pending)) ==
            if Resolvable(g) then Some((ViewOf(g), rest)) else None
  {
    assert AllIn(g.readers, PelOf(g.pending).Keys) <==> Resolvable(g);
    hide ParseConsumers, PelOf, ConsumersOf, OwnersOf, EncodeLen, EncodeReaders, ReaderStorable, AllIn, Resolvable;
    ConsumersRoundTrip(z, g.readers, g.header, PelOf(g.pending), rest);
  }

  lemma GroupBytes(z: Lzf, g: Group, rest: Bytes)
    requires WellListed(g)
    ensures EncodeGroup(z, g) + rest ==
            EncodeHeader(z, g.header) + (EncodedPel(g) + (EncodedConsumers(z, g) + rest))
  {
    hide EncodeHeader, EncodeLen, EncodePending, EncodeReaders, PendingStorable, ReaderStorable;
    var a, b, c := EncodeHeader(z, g.header), EncodedPel(g), EncodedConsumers(z, g);
    assert EncodeGroup(z, g) == a + b + c;
    assert a + b + c + rest == a + (b + (c + rest));
  }

  lemma ParseInParts(z: Lzf, deep: bool, s: Bytes, h: Header, s1: Bytes, pel: map<Bytes, Delivery>, s2: Bytes)
    requires ParseHeader(z, s) == Some((h, s1)) && ParseGlobalPel(s1) == Some((pel, s2))
    ensures var r := ParseConsumers(z, s2, h, pel);
      ParseGroup(z, deep, s) == if r.Some? && deep && !r.value.0.AllOwned() then None else r
  {
    hide ParseHeader, ParseGlobalPel, ParseConsumers, View.AllOwned;
  }

  /**
   * A saved group loads back as the group it was, with any bytes following, exactly when its consumers list only
   * entries of the global PEL and, under deep validation, leave none of them without a consumer.
   */
  lemma GroupRoundTrip(z: Lzf, deep: bool, g: Group, rest: Bytes)
    requires z.InversePair() && WellListed(g)
    ensures ParseGroup(z, deep, EncodeGroup(z, g) + rest) ==
            if Resolvable(g) && (deep ==> AllOwned(g)) then Some((ViewOf(g), rest)) else None
  {
    assert Storable(g);
    hide Lzf.InversePair, Storable, WellListed, EncodeGroup, EncodeHeader, ParseHeader, ParseGlobalPel, EncodedPel;
    hide EncodedConsumers, ParseConsumers, ParseGroup, PelOf, ViewOf, AllOwned, Resolvable, View.AllOwned;
    var s2 := EncodedConsumers(z, g) + rest;
    var s1 := EncodedPel(g) + s2;
    GroupBytes(z, g, rest);
    HeaderPart(z, g, s1);
    PelPart(g, s2);
    ConsumersPart(z, g, rest);
    ParseInParts(z, deep, EncodeGroup(z, g) + rest, g.header, s1, PelOf(g.pending), s2);
    if Resolvable(g) {
      OwnersCover(g);
    }
  }

  ghost predicate OwnedBy(rs: seq<Reader>, id: Bytes, r: Reader) {
    id in OwnersOf(rs) && OwnersOf(rs)[id] == r.name
  }

  lemma UnsharedIsOwned(g: Group, r: Reader, id: Bytes)
    requires Unshared(g) && r in g.readers && id in r.ids
    ensures OwnedBy(g.readers, id, r)
  {
    hide OwnersOf;
    LastListerOwns(g.readers, id);
    var k :| 0 <= k < |g.readers| && id in g.readers[k].ids && OwnersOf(g.readers)[id] == g.readers[k].name;
    var i :| 0 <= i < |g.readers| && g.readers[i] == r;
  }

  lemma SharedIsMisattributed(g: Group)
    requires WellListed(g) && !Unshared(g)
    ensures exists r, id :: r in g.readers && id in r.ids && !OwnedBy(g.readers, id, r)
  {
    hide OwnersOf;
    var i, j, id :| 0 <= i < j < |g.readers| && id in g.readers[i].ids && id in g.readers[j].ids;
    var first, second := g.readers[i], g.readers[j];
    assert first in g.readers && second in g.readers && first.name != second.name;
    assert !OwnedBy(g.readers, id, first) || !OwnedBy(g.readers, id, second);
  }

  /** Every loaded entry belongs to the one consumer that listed it exactly when no entry is listed twice. */
  lemma OwnerIsTheLister(g: Group)
    requires WellListed(g)
    ensures Unshared(g) <==> forall r, id :: r in g.readers && id in r.ids ==> OwnedBy(g.readers, id, r)
  {
    hide OwnedBy;
    if Unshared(g) {
      forall r, id | r in g.readers && id in r.ids ensures OwnedBy(g.readers, id, r) {
        UnsharedIsOwned(g, r, id);
      }
    } else {
      SharedIsMisattributed(g);
    }
  }

  lemma {:induction false} OwnersStep(rs: seq<Reader>, id: Bytes)
    requires rs != []
    ensures var init, r := rs[..|rs| - 1], rs[|rs| - 1];
      && (id in OwnersOf(rs) <==> id in r.ids || id in OwnersOf(init))
      && (id in OwnersOf(rs) ==> OwnersOf(rs)[id] == if id in r.ids then r.name else OwnersOf(init)[id])
  {
  }

  lemma {:induction false} LastListerOwns(rs: seq<Reader>, id: Bytes)
    requires exists r :: r in rs && id in r.ids
    ensures id in OwnersOf(rs)
    ensures exists k :: 0 <= k < |rs| && id in rs[k].ids && OwnersOf(rs)[id] == rs[k].name &&
                        (forall j :: k < j < |rs| ==> id !in rs[j].ids)
  {
    hide OwnersOf;
    var init, r := rs[..|rs| - 1], rs[|rs| - 1];
    assert rs == init + [r];
    OwnersStep(rs, id);
    if id in r.ids {
      assert rs[|rs| - 1] == r;
    } else {
      LastListerOwns(init, id);
      var k :| 0 <= k < |init| && id in init[k].ids && OwnersOf(init)[id] == init[k].name &&
               (forall j :: k < j < |init| ==> id !in init[j].ids);
      assert rs[k] == init[k];
      assert forall j :: k < j < |rs| ==> rs[j] == if j < |init| then init[j] else r;
    }
  }
}
