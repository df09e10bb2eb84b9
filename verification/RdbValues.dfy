/**
 * What a stored value is, and how rdb.c writes and reads strings, sets and hashes in each of their encodings.
 * A dict is modelled by its entries in iteration order; intset and listpack blobs by a pair of functions of which
 * only "unpack undoes pack" is used (intset.c and listpack.c are not part of this model).
 */
module RdbValues {
  import opened Base
  import opened Decimal
  import opened RdbCodec

  const RDB_TYPE_STRING: byte := 0
  const RDB_TYPE_SET: byte := 2
  const RDB_TYPE_HASH: byte := 4
  const RDB_TYPE_SET_INTSET: byte := 11
  const RDB_TYPE_HASH_LISTPACK: byte := 16
  const RDB_TYPE_SET_LISTPACK: byte := 20

  type Pair = (Bytes, Bytes)

  datatype Packing = Packing(
    packInts: seq<int> -> Bytes, unpackInts: Bytes -> Option<seq<int>>,
    packStrings: seq<Bytes> -> Bytes, unpackStrings: Bytes -> Option<seq<Bytes>>)
  {
    ghost predicate InversePair() {
      && (forall x {:trigger packInts(x)} :: unpackInts(packInts(x)) == Some(x))
      && (forall x {:trigger packStrings(x)} :: unpackStrings(packStrings(x)) == Some(x))
    }
  }

  /** The thresholds that decide which encoding a loaded collection gets; lpSafe is lpSafeToAdd. */
  datatype Limits = Limits(
    setMaxIntset: nat, setMaxListpack: nat, setMaxListpackValue: nat, hashMaxListpack: nat, hashMaxListpackValue: nat,
    lpSafe: (Option<seq<Bytes>>, nat) -> bool)

  datatype Env = Env(z: Lzf, pack: Packing, limits: Limits, deep: bool)
  {
    ghost predicate InversePairs() {
      z.InversePair() && pack.InversePair()
    }
  }

  // ------------------------------------------------------------------ values and their abstract content

  function Texts(ints: seq<int>): (r: seq<Bytes>)
    ensures |r| == |ints|
  {
    seq(|ints|, i requires 0 <= i < |ints| => Ll2String(ints[i]))
  }

  datatype SetObject = IntSet(ints: seq<int>) | ListpackSet(elems: seq<Bytes>) | TableSet(elems: seq<Bytes>)
  {
    function Order(): (r: seq<Bytes>) {
      if IntSet? then Texts(ints) else elems
    }
  }

  datatype HashObject = ListpackHash(pairs: seq<Pair>) | TableHash(pairs: seq<Pair>)

  datatype Value = StringValue(str: StringObject) | SetValue(members: SetObject) | HashValue(fields: HashObject)

  datatype Content = StringContent(text: Bytes) | SetContent(members: set<Bytes>) | HashContent(fields: map<Bytes, Bytes>)

  function Fields(ps: seq<Pair>): (r: seq<Bytes>)
    ensures |r| == |ps|
  {
    seq(|ps|, i requires 0 <= i < |ps| => ps[i].0)
  }

  function MapOf(ps: seq<Pair>): (m: map<Bytes, Bytes>) {
    if ps == [] then map[] else MapOf(ps[..|ps| - 1])[ps[|ps| - 1].0 := ps[|ps| - 1].1]
  }

  /** With distinct fields the map holds exactly the given pairs. */
  lemma {:induction false} MapOfDistinct(ps: seq<Pair>)
    requires Distinct(Fields(ps))
    ensures MapOf(ps).Keys == Elements(Fields(ps))
    ensures forall i :: 0 <= i < |ps| ==> ps[i].0 in MapOf(ps) && MapOf(ps)[ps[i].0] == ps[i].1
  {
    if ps != [] {
      var init, last := ps[..|ps| - 1], ps[|ps| - 1];
      assert Fields(ps) == Fields(init) + [last.0];
      DistinctAppend(Fields(init), last.0);
      ElementsAppend(Fields(init), last.0);
      MapOfDistinct(init);
      forall i | 0 <= i < |ps| ensures ps[i].0 in MapOf(ps) && MapOf(ps)[ps[i].0] == ps[i].1 {
        if i < |init| {
          assert ps[i] == init[i] && Fields(init)[i] == ps[i].0;
        }
      }
    }
  }

  /** A hash answers a field with the value it was last paired with. */
  ghost predicate Answers(ps: seq<Pair>, field: Bytes, value: Bytes) {
    exists i :: 0 <= i < |ps| && ps[i] == (field, value) && forall j :: i < j < |ps| ==> ps[j].0 != field
  }

  lemma {:induction false} MapOfStep(ps: seq<Pair>, field: Bytes)
    requires ps != []
    ensures var init, last := ps[..|ps| - 1], ps[|ps| - 1];
      && (field in MapOf(ps) <==> field == last.0 || field in MapOf(init))
      && (field in MapOf(ps) ==> MapOf(ps)[field] == if field == last.0 then last.1 else MapOf(init)[field])
  {
  }

  lemma {:induction false} AnswersStep(ps: seq<Pair>, field: Bytes, value: Bytes)
    requires ps != []
    ensures var init, last := ps[..|ps| - 1], ps[|ps| - 1];
      Answers(ps, field, value) <==> if field == last.0 then value == last.1 else Answers(init, field, value)
  {
    var init, last := ps[..|ps| - 1], ps[|ps| - 1];
    if field == last.0 {
      if value == last.1 {
        assert ps[|ps| - 1] == (field, value);
      }
    } else {
      if Answers(init, field, value) {
        var i :| 0 <= i < |init| && init[i] == (field, value) && forall j :: i < j < |init| ==> init[j].0 != field;
        assert forall j :: i < j < |ps| ==> ps[j] == if j < |init| then init[j] else last;
        assert ps[i] == (field, value);
      }
      if Answers(ps, field, value) {
        var i :| 0 <= i < |ps| && ps[i] == (field, value) && forall j :: i < j < |ps| ==> ps[j].0 != field;
        assert init[i] == (field, value) && forall j :: i < j < |init| ==> init[j] == ps[j];
      }
    }
  }

  /** The map of a list of pairs is exactly what the list answers, repeated fields included. */
  lemma {:induction false} MapOfAnswers(ps: seq<Pair>, field: Bytes, value: Bytes)
    ensures field in MapOf(ps) && MapOf(ps)[field] == value <==> Answers(ps, field, value)
  {
    if ps == [] {
      assert MapOf(ps) == map[];
    } else {
      hide MapOf, Answers;
      MapOfStep(ps, field);
      AnswersStep(ps, field, value);
      MapOfAnswers(ps[..|ps| - 1], field, value);
    }
  }

  /** What a client reads is the same: the text, the members, or the answer to every field. */
  ghost predicate SameData(v: Value, w: Value) {
    match v
    case StringValue(o) => w.StringValue? && o.Text() == w.str.Text()
    case SetValue(o) => w.SetValue? && forall x :: x in o.Order() <==> x in w.members.Order()
    case HashValue(o) => w.HashValue? && forall f, x :: Answers(o.pairs, f, x) <==> Answers(w.fields.pairs, f, x)
  }

  /** Two values have the same content exactly when a client reads the same from them. */
  lemma {:induction false} SameContentIsSameData(v: Value, w: Value)
    ensures ContentOf(v) == ContentOf(w) <==> SameData(v, w)
  {
    match v
    case StringValue(o) =>
    case SetValue(o) =>
      if w.SetValue? {
        SameElements(o.Order(), w.members.Order());
      }
    case HashValue(o) =>
      if w.HashValue? {
        SameAnswers(o.pairs, w.fields.pairs);
      }
  }

  lemma {:induction false} SameElements(xs: seq<Bytes>, ys: seq<Bytes>)
    ensures Elements(xs) == Elements(ys) <==> forall x :: x in xs <==> x in ys
  {
    assert forall x :: x in xs <==> x in Elements(xs);
    assert forall y :: y in ys <==> y in Elements(ys);
  }

  lemma {:induction false} SameAnswers(ps: seq<Pair>, qs: seq<Pair>)
    ensures MapOf(ps) == MapOf(qs) <==> forall f, x :: Answers(ps, f, x) <==> Answers(qs, f, x)
  {
    hide MapOf, Answers;
    forall f, x
      ensures f in MapOf(ps) && MapOf(ps)[f] == x <==> Answers(ps, f, x)
      ensures f in MapOf(qs) && MapOf(qs)[f] == x <==> Answers(qs, f, x)
    {
      MapOfAnswers(ps, f, x);
      MapOfAnswers(qs, f, x);
    }
    if forall f, x :: Answers(ps, f, x) <==> Answers(qs, f, x) {
      forall f ensures f in MapOf(ps) <==> f in MapOf(qs) {
        if f in MapOf(ps) {
          assert Answers(ps, f, MapOf(ps)[f]);
        }
        if f in MapOf(qs) {
          assert Answers(qs, f, MapOf(qs)[f]);
        }
      }
      forall f | f in MapOf(ps) ensures MapOf(ps)[f] == MapOf(qs)[f] {
        assert Answers(ps, f, MapOf(ps)[f]);
      }
    }
  }

  function ContentOf(v: Value): (c: Content) {
    match v
    case StringValue(o) => StringContent(o.Text())
    case SetValue(o) => SetContent(Elements(o.Order()))
    case HashValue(o) => HashContent(MapOf(o.pairs))
  }

  // ------------------------------------------------------------------ sequences of strings and pairs

  ghost predicate AllFit(xs: seq<Bytes>) {
    forall x :: x in xs ==> Fits(x)
  }

  ghost function EncodeStrings(z: Lzf, xs: seq<Bytes>): (r: Bytes)
    requires AllFit(xs)
  {
    if xs == [] then [] else EncodeString(z, xs[0]) + EncodeStrings(z, xs[1..])
  }

  function ParseStrings(z: Lzf, n: nat, s: Bytes): (r: Option<(seq<Bytes>, Bytes)>)
    ensures r.Some? ==> |r.value.0| == n && |r.value.1| <= |s|
  {
    if n == 0 then Some(([], s))
    else match ParseString(z, s)
      case None => None
      case Some((x, s1)) =>
        match ParseStrings(z, n - 1, s1)
        case None => None
        case Some((xs, rest)) => Some(([x] + xs, rest))
  }

  lemma ParseStringsCons(z: Lzf, n: nat, s: Bytes, x: Bytes, s1: Bytes, xs: seq<Bytes>, rest: Bytes)
    requires ParseString(z, s) == Some((x, s1))
    requires ParseStrings(z, n, s1) == Some((xs, rest))
    ensures ParseStrings(z, n + 1, s) == Some(([x] + xs, rest))
  {
  }

  lemma {:induction false} EncodeStringsCons(z: Lzf, xs: seq<Bytes>, rest: Bytes)
    requires AllFit(xs) && xs != []
    ensures EncodeStrings(z, xs) + rest == EncodeString(z, xs[0]) + (EncodeStrings(z, xs[1..]) + rest)
  {
    AppendTwo(EncodeString(z, xs[0]), EncodeStrings(z, xs[1..]), rest);
  }

  lemma {:induction false} StringsRoundTrip(z: Lzf, xs: seq<Bytes>, rest: Bytes)
    requires z.InversePair() && AllFit(xs)
    ensures ParseStrings(z, |xs|, EncodeStrings(z, xs) + rest) == Some((xs, rest))
  {
    hide EncodeString, ParseString;
    if xs == [] {
      assert EncodeStrings(z, xs) + rest == rest;
    } else {
      var tail := EncodeStrings(z, xs[1..]) + rest;
      StringsRoundTrip(z, xs[1..], rest);
      StringRoundTrip(z, xs[0], tail);
      EncodeStringsCons(z, xs, rest);
      ParseStringsCons(z, |xs| - 1, EncodeStrings(z, xs) + rest, xs[0], tail, xs[1..], rest);
      assert xs == [xs[0]] + xs[1..];
    }
  }

  /** A hash is written field, value, field, value. */
  function Flatten(ps: seq<Pair>): (r: seq<Bytes>)
    ensures |r| == 2 * |ps|
  {
    if ps == [] then [] else [ps[0].0, ps[0].1] + Flatten(ps[1..])
  }

  function Unflatten(xs: seq<Bytes>): (r: seq<Pair>)
    requires |xs| % 2 == 0
    ensures 2 * |r| == |xs|
  {
    if xs == [] then [] else [(xs[0], xs[1])] + Unflatten(xs[2..])
  }

  /** The pairs of a packed hash: a last field without a value, which only deep validation notices, is not among them. */
  function WholePairs(xs: seq<Bytes>): (r: seq<Pair>)
    ensures |r| == |xs| / 2
  {
    Unflatten(xs[..|xs| - |xs| % 2])
  }

  lemma WholeWhenEven(xs: seq<Bytes>)
    requires |xs| % 2 == 0
    ensures WholePairs(xs) == Unflatten(xs)
  {
    assert xs[..|xs|] == xs;
  }

  lemma {:induction false} UnflattenFlatten(ps: seq<Pair>)
    ensures Unflatten(Flatten(ps)) == ps
  {
    if ps != [] {
      UnflattenFlatten(ps[1..]);
      assert Flatten(ps)[2..] == Flatten(ps[1..]);
    }
  }

  // ------------------------------------------------------------------ objects

  function TypeOf(v: Value): byte {
    match v
    case StringValue(_) => RDB_TYPE_STRING
    case SetValue(IntSet(_)) => RDB_TYPE_SET_INTSET
    case SetValue(ListpackSet(_)) => RDB_TYPE_SET_LISTPACK
    case SetValue(TableSet(_)) => RDB_TYPE_SET
    case HashValue(ListpackHash(_)) => RDB_TYPE_HASH_LISTPACK
    case HashValue(TableHash(_)) => RDB_TYPE_HASH
  }

  /** What the in-memory representation guarantees: distinct members and fields, and lengths the format can carry. */
  ghost predicate Storable(env: Env, v: Value) {
    match v
    case StringValue(o) => o.Storable()
    case SetValue(o) =>
      && Distinct(o.Order())
      && (match o
          case IntSet(ints) => Fits(env.pack.packInts(ints))
          case ListpackSet(elems) => Fits(env.pack.packStrings(elems))
          case TableSet(elems) => AllFit(elems) && |elems| < RDB_LENERR)
    case HashValue(o) =>
      && Distinct(Fields(o.pairs))
      && (match o
          case ListpackHash(pairs) => Fits(env.pack.packStrings(Flatten(pairs)))
          case TableHash(pairs) => AllFit(Flatten(pairs)) && |pairs| < RDB_LENERR)
  }

  ghost function EncodeObject(env: Env, v: Value): (r: Bytes)
    requires Storable(env, v)
  {
    match v
    case StringValue(o) => EncodeStringObject(env.z, o)
    case SetValue(IntSet(ints)) => EncodeString(env.z, env.pack.packInts(ints))
    case SetValue(ListpackSet(elems)) => EncodeString(env.z, env.pack.packStrings(elems))
    case SetValue(TableSet(elems)) => EncodeLen(|elems|) + EncodeStrings(env.z, elems)
    case HashValue(ListpackHash(pairs)) => EncodeString(env.z, env.pack.packStrings(Flatten(pairs)))
    case HashValue(TableHash(pairs)) => EncodeLen(|pairs|) + EncodeStrings(env.z, Flatten(pairs))
  }

  datatype LoadError = EmptyKey | Corrupt

  /** A parsed value with the bytes after it, an empty collection (dropped by the loader), or a format error. */
  datatype Loaded<+T> = Got(value: T, rest: Bytes) | Empty(rest: Bytes) | Bad

  function ParseTable(z: Lzf, perEntry: nat, s: Bytes): (r: Loaded<seq<Bytes>>)
    ensures !r.Bad? ==> |r.rest| < |s|
    ensures r.Got? && perEntry == 2 ==> |r.value| % 2 == 0
  {
    match ParseCount(s)
    case None => Bad
    case Some((len, s1)) =>
      if len == 0 then Empty(s1)
      else match ParseStrings(z, perEntry * len, s1)
        case None => Bad
        case Some((xs, rest)) => Got(xs, rest)
  }

  ghost function ParseSet(env: Env, s: Bytes): (r: Loaded<Content>)
    ensures !r.Bad? ==> |r.rest| < |s|
  {
    match ParseTable(env.z, 1, s)
    case Bad => Bad
    case Empty(rest) => Empty(rest)
    case Got(xs, rest) => if Distinct(xs) then Got(SetContent(Elements(xs)), rest) else Bad
  }

  /** A pair that may not be appended to the listpack holding the pairs before it. */
  predicate TooLarge(limits: Limits, before: seq<Pair>, p: Pair) {
    || |p.0| > limits.hashMaxListpackValue
    || |p.1| > limits.hashMaxListpackValue
    || !limits.lpSafe(Some(Flatten(before)), |p.0| + |p.1|)
  }

  predicate Oversized(limits: Limits, ps: seq<Pair>, i: nat)
    requires i < |ps|
  {
    TooLarge(limits, ps[..i], ps[i])
  }

  ghost predicate StaysPacked(limits: Limits, ps: seq<Pair>) {
    |ps| <= limits.hashMaxListpack && forall i :: 0 <= i < |ps| ==> !Oversized(limits, ps, i)
  }

  /**
   * Duplicate fields are refused except in one case: the whole hash stays a listpack and no deep validation was
   * asked for.
   */
  ghost function BuildHash(env: Env, ps: seq<Pair>): (r: Result<HashObject, LoadError>)
    ensures r == Ok(ListpackHash(ps)) || r == Ok(TableHash(ps)) || r == Err(Corrupt)
  {
    if StaysPacked(env.limits, ps) then
      if env.deep && !Distinct(Fields(ps)) then Err(Corrupt) else Ok(ListpackHash(ps))
    else if Distinct(Fields(ps)) then Ok(TableHash(ps)) else Err(Corrupt)
  }

  ghost function ParseHash(env: Env, s: Bytes): (r: Loaded<Content>)
    ensures !r.Bad? ==> |r.rest| < |s|
  {
    match ParseTable(env.z, 2, s)
    case Bad => Bad
    case Empty(rest) => Empty(rest)
    case Got(xs, rest) =>
      match BuildHash(env, Unflatten(xs))
      case Err(_) => Bad
      case Ok(o) => Got(HashContent(MapOf(o.pairs)), rest)
  }

  /** Repeated members are refused under deep validation, and otherwise only when a conversion comes across them. */
  ghost function ParsePacked(env: Env, t: byte, blob: Bytes): (r: Result<Content, LoadError>) {
    if t == RDB_TYPE_SET_INTSET then
      match env.pack.unpackInts(blob)
      case None => Err(Corrupt)
      case Some(ints) =>
        if (env.deep || |ints| > env.limits.setMaxIntset) && !Distinct(Texts(ints)) then Err(Corrupt)
        else Ok(SetContent(Elements(Texts(ints))))
    else
      match env.pack.unpackStrings(blob)
      case None => Err(Corrupt)
      case Some(xs) =>
        if t == RDB_TYPE_SET_LISTPACK then
          if xs == [] then Err(EmptyKey)
          else if (env.deep || |xs| > env.limits.setMaxListpack) && !Distinct(xs) then Err(Corrupt)
          else Ok(SetContent(Elements(xs)))
        else if env.deep && |xs| % 2 != 0 then Err(Corrupt)
        else
          var ps := WholePairs(xs);
          if ps == [] then Err(EmptyKey)
          else if (env.deep || |ps| > env.limits.hashMaxListpack) && !Distinct(Fields(ps)) then Err(Corrupt)
          else Ok(HashContent(MapOf(ps)))
  }

  ghost function ParseObject(env: Env, t: byte, s: Bytes): (r: Loaded<Content>)
    ensures !r.Bad? ==> |r.rest| < |s|
  {
    if t == RDB_TYPE_SET then ParseSet(env, s)
    else if t == RDB_TYPE_HASH then ParseHash(env, s)
    else if t in {RDB_TYPE_STRING, RDB_TYPE_SET_INTSET, RDB_TYPE_SET_LISTPACK, RDB_TYPE_HASH_LISTPACK} then
      match ParseString(env.z, s)
      case None => Bad
      case Some((text, rest)) =>
        if t == RDB_TYPE_STRING then Got(StringContent(text), rest)
        else match ParsePacked(env, t, text)
          case Err(EmptyKey) => Empty(rest)
          case Err(Corrupt) => Bad
          case Ok(c) => Got(c, rest)
    else Bad
  }

  /** A stored table of members loads exactly when there is one and none is there twice. */
  lemma {:induction false} SetTableLoads(env: Env, xs: seq<Bytes>, rest: Bytes)
    requires env.InversePairs() && AllFit(xs) && |xs| < RDB_LENERR
    ensures ParseObject(env, 2, EncodeLen(|xs|) + EncodeStrings(env.z, xs) + rest) ==
      if |xs| == 0 then Empty(rest)
      else if exists i, j :: 0 <= i < j < |xs| && xs[i] == xs[j] then Bad
      else Got(SetContent(Elements(xs)), rest)
  {
    hide EncodeLen, EncodeStrings, ParseTable;
    TableRoundTrip(env.z, 1, |xs|, xs, rest);
  }

  /**
   * A stored table of pairs becomes a listpack exactly when it is small in every respect; a field that is there twice is
   * refused unless it does and no deep validation is asked for.
   */
  lemma {:induction false} HashTableLoads(env: Env, ps: seq<Pair>, rest: Bytes)
    requires env.InversePairs() && AllFit(Flatten(ps)) && |ps| < RDB_LENERR
    ensures var small := |ps| <= env.limits.hashMaxListpack && forall i :: 0 <= i < |ps| ==> SmallPair(env.limits, ps, i);
      var repeats := exists i, j :: 0 <= i < j < |ps| && ps[i].0 == ps[j].0;
      && (ParseObject(env, 4, EncodeLen(|ps|) + EncodeStrings(env.z, Flatten(ps)) + rest) ==
        if |ps| == 0 then Empty(rest)
        else if repeats && (env.deep || !small) then Bad
        else Got(HashContent(MapOf(ps)), rest))
      && (!(repeats && (env.deep || !small)) ==>
        BuildHash(env, ps) == Ok(if small then ListpackHash(ps) else TableHash(ps)))
  {
    hide EncodeLen, EncodeStrings, ParseTable, MapOf, Flatten, Unflatten, Distinct;
    TableRoundTrip(env.z, 2, |ps|, Flatten(ps), rest);
    UnflattenFlatten(ps);
    RepeatedField(ps);
    assert forall i :: 0 <= i < |ps| ==> (Oversized(env.limits, ps, i) <==> !SmallPair(env.limits, ps, i));
  }

  /** Field and value are short enough, and the listpack of the pairs before has room for them. */
  ghost predicate SmallPair(limits: Limits, ps: seq<Pair>, i: nat)
    requires i < |ps|
  {
    && |ps[i].0| <= limits.hashMaxListpackValue && |ps[i].1| <= limits.hashMaxListpackValue
    && limits.lpSafe(Some(Flatten(ps[..i])), |ps[i].0| + |ps[i].1|)
  }

  lemma {:induction false} RepeatedField(ps: seq<Pair>)
    ensures Distinct(Fields(ps)) <==> !exists i, j :: 0 <= i < j < |ps| && ps[i].0 == ps[j].0
  {
    var fs := Fields(ps);
    assert forall i :: 0 <= i < |ps| ==> fs[i] == ps[i].0;
  }

  /** A stored listpack of members with repetitions is refused under deep validation or when it has to be converted. */
  lemma {:induction false} SetListpackLoads(env: Env, xs: seq<Bytes>, rest: Bytes)
    requires env.InversePairs() && Fits(env.pack.packStrings(xs))
    ensures var repeats := exists i, j :: 0 <= i < j < |xs| && xs[i] == xs[j];
      ParseObject(env, 20, EncodeString(env.z, env.pack.packStrings(xs)) + rest) ==
      if |xs| == 0 then Empty(rest)
      else if repeats && (env.deep || |xs| > env.limits.setMaxListpack) then Bad
      else Got(SetContent(Elements(xs)), rest)
  {
    hide EncodeString, ParseString;
    StringRoundTrip(env.z, env.pack.packStrings(xs), rest);
  }

  /** The same for a listpack of fields and values, where a last field without a value is refused under deep validation. */
  lemma {:induction false} HashListpackLoads(env: Env, xs: seq<Bytes>, rest: Bytes)
    requires env.InversePairs() && Fits(env.pack.packStrings(xs))
    ensures var ps := WholePairs(xs);
      var repeats := exists i, j :: 0 <= i < j < |ps| && ps[i].0 == ps[j].0;
      ParseObject(env, 16, EncodeString(env.z, env.pack.packStrings(xs)) + rest) ==
      if env.deep && |xs| % 2 == 1 then Bad
      else if |xs| < 2 then Empty(rest)
      else if repeats && (env.deep || |ps| > env.limits.hashMaxListpack) then Bad
      else Got(HashContent(MapOf(ps)), rest)
  {
    hide EncodeString, ParseString, WholePairs, MapOf, Distinct;
    StringRoundTrip(env.z, env.pack.packStrings(xs), rest);
    RepeatedField(WholePairs(xs));
  }

  /** An empty collection is dropped on load, except an empty intset, for which the loader has no such test. */
  predicate LoadsEmpty(v: Value) {
    match v
    case SetValue(ListpackSet(elems)) => elems == []
    case SetValue(TableSet(elems)) => elems == []
    case HashValue(o) => o.pairs == []
    case _ => false
  }

  /**
   * Whatever the encoding it was saved in and whatever the thresholds of the loading server, a value comes back with
   * the same content, and exactly its own bytes are consumed.
   */
  lemma ObjectRoundTrip(env: Env, v: Value, rest: Bytes)
    requires env.InversePairs() && Storable(env, v)
    ensures ParseObject(env, TypeOf(v), EncodeObject(env, v) + rest) ==
            if LoadsEmpty(v) then Empty(rest) else Got(ContentOf(v), rest)
  {
    hide EncodeObject, ParseObject, Storable, LoadsEmpty, ContentOf;
    match v
    case StringValue(o) => StringValueRoundTrip(env, o, rest);
    case SetValue(o) => SetRoundTrip(env, o, rest);
    case HashValue(o) => HashRoundTrip(env, o, rest);
  }

  ghost predicate ComesBack(env: Env, v: Value, rest: Bytes)
    requires Storable(env, v)
  {
    ParseObject(env, TypeOf(v), EncodeObject(env, v) + rest) ==
    if LoadsEmpty(v) then Empty(rest) else Got(ContentOf(v), rest)
  }

  lemma StringValueRoundTrip(env: Env, o: StringObject, rest: Bytes)
    requires env.InversePairs() && Storable(env, StringValue(o))
    ensures ComesBack(env, StringValue(o), rest)
  {
    hide ParseString, EncodeStringObject;
    StringObjectRoundTrip(env.z, o, rest);
  }

  lemma SetRoundTrip(env: Env, o: SetObject, rest: Bytes)
    requires env.InversePairs() && Storable(env, SetValue(o))
    ensures ComesBack(env, SetValue(o), rest)
  {
    hide EncodeLen, EncodeStrings, ParseTable, EncodeString, ParseString, Distinct;
    match o
    case IntSet(ints) => StringRoundTrip(env.z, env.pack.packInts(ints), rest);
    case ListpackSet(elems) => StringRoundTrip(env.z, env.pack.packStrings(elems), rest);
    case TableSet(elems) => TableRoundTrip(env.z, 1, |elems|, elems, rest);
  }

  lemma HashRoundTrip(env: Env, o: HashObject, rest: Bytes)
    requires env.InversePairs() && Storable(env, HashValue(o))
    ensures ComesBack(env, HashValue(o), rest)
  {
    hide EncodeLen, EncodeStrings, ParseTable, EncodeString, ParseString, Distinct, Flatten, Unflatten, WholePairs, MapOf;
    UnflattenFlatten(o.pairs);
    match o
    case ListpackHash(pairs) =>
      StringRoundTrip(env.z, env.pack.packStrings(Flatten(pairs)), rest);
      WholeWhenEven(Flatten(pairs));
    case TableHash(pairs) => TableRoundTrip(env.z, 2, |pairs|, Flatten(pairs), rest);
  }

  lemma {:induction false} TableRoundTrip(z: Lzf, perEntry: nat, len: nat, xs: seq<Bytes>, rest: Bytes)
    requires z.InversePair() && AllFit(xs) && perEntry > 0
    requires |xs| == perEntry * len && len < RDB_LENERR
    ensures ParseTable(z, perEntry, EncodeLen(len) + EncodeStrings(z, xs) + rest) ==
            if len == 0 then Empty(rest) else Got(xs, rest)
  {
    hide EncodeLen, EncodeStrings, ParseCount, ParseStrings;
    var body := EncodeStrings(z, xs) + rest;
    CountRoundTrip(len, body);
    AppendTwo(EncodeLen(len), EncodeStrings(z, xs), rest);
    StringsRoundTrip(z, xs, rest);
    if len == 0 {
      EncodeStringsEmpty(z, xs, rest);
    } else {
      ParseTableStep(z, perEntry, EncodeLen(len) + body, len, body);
    }
  }

  lemma {:induction false} EncodeStringsEmpty(z: Lzf, xs: seq<Bytes>, rest: Bytes)
    requires xs == []
    ensures AllFit(xs) && EncodeStrings(z, xs) + rest == rest
  {
  }

  lemma {:induction false} ParseTableStep(z: Lzf, perEntry: nat, s: Bytes, len: nat, s1: Bytes)
    requires ParseCount(s) == Some((len, s1)) && len > 0 && ParseStrings(z, perEntry * len, s1).Some?
    ensures var (xs, rest) := ParseStrings(z, perEntry * len, s1).value; ParseTable(z, perEntry, s) == Got(xs, rest)
  {
  }
}
