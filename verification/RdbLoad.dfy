/** Saving and loading whole values on a stream (rdbSaveObject and rdbLoadObject of rdb.c). */
module RdbLoad {
  import opened Base
  import opened Decimal
  import opened RdbCodec
  import opened RdbIo
  import opened RdbValues

  // ------------------------------------------------------------------ saving

  method SaveStrings(rdb: Rio, z: Lzf, xs: seq<Bytes>) returns (nwritten: nat)
    requires AllFit(xs)
    modifies rdb
    ensures rdb.buf == old(rdb.buf) + EncodeStrings(z, xs) && nwritten == |EncodeStrings(z, xs)|
  {
    hide EncodeString;
    nwritten := 0;
    var i := 0;
    assert xs[0..] == xs;
    while i < |xs|
      invariant 0 <= i <= |xs|
      invariant rdb.buf + EncodeStrings(z, xs[i..]) == old(rdb.buf) + EncodeStrings(z, xs)
      invariant nwritten + |EncodeStrings(z, xs[i..])| == |EncodeStrings(z, xs)|
    {
      ghost var before := rdb.buf;
      var n := SaveRawString(rdb, z, xs[i]);
      nwritten := nwritten + n;
      assert xs[i..][1..] == xs[i + 1..];
      AppendTwo(before, EncodeString(z, xs[i]), EncodeStrings(z, xs[i + 1..]));
      i := i + 1;
    }
    assert EncodeStrings(z, xs[i..]) == [];
  }

  method SaveObjectType(rdb: Rio, v: Value) returns (n: nat)
    modifies rdb
    ensures rdb.buf == old(rdb.buf) + [TypeOf(v)] && n == 1
  {
    match v
    case StringValue(_) => n := SaveType(rdb, RDB_TYPE_STRING);
    case SetValue(IntSet(_)) => n := SaveType(rdb, RDB_TYPE_SET_INTSET);
    case SetValue(TableSet(_)) => n := SaveType(rdb, RDB_TYPE_SET);
    case SetValue(ListpackSet(_)) => n := SaveType(rdb, RDB_TYPE_SET_LISTPACK);
    case HashValue(ListpackHash(_)) => n := SaveType(rdb, RDB_TYPE_HASH_LISTPACK);
    case HashValue(TableHash(_)) => n := SaveType(rdb, RDB_TYPE_HASH);
  }

  method SaveObject(rdb: Rio, env: Env, v: Value) returns (nwritten: nat)
    requires Storable(env, v)
    modifies rdb
    ensures rdb.buf == old(rdb.buf) + EncodeObject(env, v) && nwritten == |EncodeObject(env, v)|
  {
    hide EncodeString, EncodeStrings, EncodeStringObject, EncodeLen, Flatten;
    ghost var start := rdb.buf;
    match v
    case StringValue(o) => nwritten := SaveStringObject(rdb, env.z, o);
    case SetValue(IntSet(ints)) => nwritten := SaveRawString(rdb, env.z, env.pack.packInts(ints));
    case SetValue(ListpackSet(elems)) => nwritten := SaveRawString(rdb, env.z, env.pack.packStrings(elems));
    case SetValue(TableSet(elems)) =>
      nwritten := SaveLen(rdb, |elems|);
      var n := SaveStrings(rdb, env.z, elems);
      nwritten := nwritten + n;
      AppendTwo(start, EncodeLen(|elems|), EncodeStrings(env.z, elems));
    case HashValue(ListpackHash(pairs)) => nwritten := SaveRawString(rdb, env.z, env.pack.packStrings(Flatten(pairs)));
    case HashValue(TableHash(pairs)) =>
      nwritten := SaveLen(rdb, |pairs|);
      var n := SaveStrings(rdb, env.z, Flatten(pairs));
      nwritten := nwritten + n;
      AppendTwo(start, EncodeLen(|pairs|), EncodeStrings(env.z, Flatten(pairs)));
  }

  // ------------------------------------------------------------------ loading one string after another

  /** Having read acc, the loader still has k of total strings to read from s. */
  ghost predicate Continues(z: Lzf, total: nat, s0: Bytes, acc: seq<Bytes>, k: nat, s: Bytes) {
    ParseStrings(z, total, s0) ==
    match ParseStrings(z, k, s)
    case None => None
    case Some((xs, rest)) => Some((acc + xs, rest))
  }

  lemma ContinuesInit(z: Lzf, total: nat, s0: Bytes)
    ensures Continues(z, total, s0, [], total, s0)
  {
    match ParseStrings(z, total, s0)
    case None =>
    case Some((xs, rest)) => assert [] + xs == xs;
  }

  lemma {:induction false} ContinuesDone(z: Lzf, total: nat, s0: Bytes, acc: seq<Bytes>, s: Bytes)
    requires Continues(z, total, s0, acc, 0, s)
    ensures ParseStrings(z, total, s0) == Some((acc, s))
  {
    assert acc + [] == acc;
  }

  lemma {:induction false} ContinuesStep(z: Lzf, total: nat, s0: Bytes, acc: seq<Bytes>, k: nat, s: Bytes)
    requires Continues(z, total, s0, acc, k, s) && k > 0
    ensures ParseString(z, s) == None ==> ParseStrings(z, total, s0) == None
    ensures forall x, s1 :: ParseString(z, s) == Some((x, s1)) ==>
      Continues(z, total, s0, acc + [x], k - 1, s1)
  {
    hide ParseString;
    forall x, s1 | ParseString(z, s) == Some((x, s1))
      ensures Continues(z, total, s0, acc + [x], k - 1, s1)
    {
      match ParseStrings(z, k - 1, s1)
      case None =>
      case Some((xs, rest)) => assert acc + [x] + xs == acc + ([x] + xs);
    }
  }

  /** A duplicate among the strings read so far is a duplicate in the whole. */
  lemma {:induction false} DuplicatePersists(z: Lzf, total: nat, s0: Bytes, acc: seq<Bytes>, k: nat, s: Bytes)
    requires Continues(z, total, s0, acc, k, s) && !Distinct(acc)
    ensures ParseStrings(z, total, s0).Some? ==> !Distinct(ParseStrings(z, total, s0).value.0)
  {
    hide ParseString;
    var i, j :| 0 <= i < j < |acc| && acc[i] == acc[j];
    match ParseStrings(z, k, s)
    case None =>
    case Some((xs, rest)) => assert (acc + xs)[i] == (acc + xs)[j];
  }

  // ------------------------------------------------------------------ sets

  lemma TextsContain(ints: seq<int>, v: int)
    requires Int64(v) && forall i :: 0 <= i < |ints| ==> Int64(ints[i])
    ensures Ll2String(v) in Texts(ints) <==> v in ints
  {
    if Ll2String(v) in Texts(ints) {
      var i :| 0 <= i < |ints| && Texts(ints)[i] == Ll2String(v);
      Ll2StringInjective(v, ints[i]);
    }
    if v in ints {
      var i :| 0 <= i < |ints| && ints[i] == v;
      assert Texts(ints)[i] == Ll2String(v);
    }
  }

  lemma DistinctEmpty(s: seq<Bytes>)
    requires s == []
    ensures Distinct(s)
  {
  }

  ghost predicate IntsInRange(o: SetObject) {
    o.IntSet? ==> forall j :: 0 <= j < |o.ints| ==> Int64(o.ints[j])
  }

  lemma NoLongerThanMore(xs: seq<Bytes>, x: Bytes, n: nat)
    requires NoLonger(xs, n)
    ensures var m := if |x| > n then |x| else n; NoLonger(xs, m) && NoLonger(xs + [x], m)
  {
  }

  /** A listpack has no more members, and no longer ones, than it may have. */
  ghost predicate WithinListpack(limits: Limits, o: SetObject) {
    o.ListpackSet? ==>
      |o.elems| <= limits.setMaxListpack && forall x :: x in o.elems ==> |x| <= limits.setMaxListpackValue
  }

  lemma EmptySetFits(limits: Limits, o: SetObject)
    requires o == TableSet([]) || o == IntSet([])
    ensures o.Order() == [] && Distinct(o.Order())
    ensures IntsInRange(o) && NoLonger(o.Order(), 0) && WithinListpack(limits, o)
  {
  }

  ghost predicate NoLonger(xs: seq<Bytes>, n: nat) {
    forall x :: x in xs ==> |x| <= n
  }

  /** Adds one loaded entry, converting the encoding when it no longer fits; a duplicate is refused. */
  method AddSetEntry(env: Env, o: SetObject, ele: Bytes, maxelelen: nat, sumelelen: nat) returns (r: Option<SetObject>)
    requires IntsInRange(o) && NoLonger(o.Order(), maxelelen) && WithinListpack(env.limits, o)
    ensures r.Some? ==> WithinListpack(env.limits, r.value)
    ensures r.Some? && r.value.IntSet? ==> o.IntSet? && |r.value.ints| == |o.ints| + 1
    ensures r.Some? <==> ele !in o.Order()
    ensures r.Some? ==> r.value.Order() == o.Order() + [ele] && IntsInRange(r.value)
  {
    hide Ll2String, String2ll;
    var s := o;
    if s.IntSet? {
      var ll := String2ll(ele);
      if ll.Some? {
        String2llAcceptsOnlyCanonical(ele, ll.value);
        TextsContain(s.ints, ll.value);
        if ll.value in s.ints {
          return None;
        }
        assert Texts(s.ints + [ll.value]) == Texts(s.ints) + [ele];
        s := IntSet(s.ints + [ll.value]);
      } else {
        if |s.ints| < env.limits.setMaxListpack && maxelelen <= env.limits.setMaxListpackValue &&
           env.limits.lpSafe(None, sumelelen) {
          s := ListpackSet(Texts(s.ints));
        } else {
          s := TableSet(Texts(s.ints));
        }
      }
    }
    if s.ListpackSet? {
      if |s.elems| < env.limits.setMaxListpack && |ele| <= env.limits.setMaxListpackValue &&
         env.limits.lpSafe(Some(s.elems), |ele|) {
        if ele in s.elems {
          return None;
        }
        s := ListpackSet(s.elems + [ele]);
      } else {
        s := TableSet(s.elems);
      }
    }
    if s.TableSet? {
      if ele in s.elems {
        return None;
      }
      s := TableSet(s.elems + [ele]);
    }
    r := Some(s);
  }

  /**
   * The loop that loads a set entry by entry, starting as an intset or a table and converting when an entry no
   * longer fits. Whichever encodings it passes through, it accepts exactly the duplicate-free lists.
   */
  method LoadSetEntries(rdb: Rio, env: Env, len: nat) returns (r: Result<SetObject, LoadError>)
    modifies rdb
    ensures match ParseStrings(env.z, len, old(rdb.buf))
            case None => r == Err(Corrupt)
            case Some((xs, rest)) =>
              if Distinct(xs) then
                r.Ok? && r.value.Order() == xs && rdb.buf == rest && rdb.readError == old(rdb.readError)
              else r == Err(Corrupt)
    ensures r.Ok? ==> WithinListpack(env.limits, r.value) && (r.value.IntSet? ==> |r.value.ints| <= env.limits.setMaxIntset)
  {
    hide ParseString, ParseStrings, Ll2String, Distinct, IntsInRange, NoLonger, WithinListpack, SetObject.Order, Continues;
    var maxEntries := if env.limits.setMaxIntset >= 0x4000_0000 then 0x4000_0000 else env.limits.setMaxIntset;
    var o := if len > maxEntries then TableSet([]) else IntSet([]);
    var maxelelen: nat, sumelelen: nat, i: nat := 0, 0, 0;
    ghost var s0 := rdb.buf;
    EmptySetFits(env.limits, o);
    ContinuesInit(env.z, len, s0);
    while i < len
      invariant 0 <= i <= len
      invariant rdb.readError == old(rdb.readError)
      invariant Continues(env.z, len, s0, o.Order(), len - i, rdb.buf)
      invariant Distinct(o.Order()) && IntsInRange(o)
      invariant NoLonger(o.Order(), maxelelen) && WithinListpack(env.limits, o)
      invariant o.IntSet? ==> |o.ints| == i && len <= maxEntries
    {
      ContinuesStep(env.z, len, s0, o.Order(), len - i, rdb.buf);
      var ele := GenericLoadStringObject(rdb, env.z);
      if ele.None? {
        return Err(Corrupt);
      }
      sumelelen := sumelelen + |ele.value|;
      NoLongerThanMore(o.Order(), ele.value, maxelelen);
      maxelelen := if |ele.value| > maxelelen then |ele.value| else maxelelen;
      DistinctAppend(o.Order(), ele.value);
      var added := AddSetEntry(env, o, ele.value, maxelelen, sumelelen);
      if added.None? {
        DuplicatePersists(env.z, len, s0, o.Order() + [ele.value], len - i - 1, rdb.buf);
        return Err(Corrupt);
      }
      o := added.value;
      i := i + 1;
    }
    ContinuesDone(env.z, len, s0, o.Order(), rdb.buf);
    r := Ok(o);
  }

  method LoadTableSet(rdb: Rio, env: Env) returns (r: Result<SetObject, LoadError>)
    modifies rdb
    ensures match ParseTable(env.z, 1, old(rdb.buf))
            case Bad => r == Err(Corrupt)
            case Empty(rest) => r == Err(EmptyKey) && rdb.buf == rest && rdb.readError == old(rdb.readError)
            case Got(xs, rest) =>
              if Distinct(xs) then
                r.Ok? && r.value.Order() == xs && rdb.buf == rest && rdb.readError == old(rdb.readError)
              else r == Err(Corrupt)
  {
    hide ParseLen, ParseStrings, Distinct;
    var len := LoadLen(rdb);
    if len == RDB_LENERR {
      return Err(Corrupt);
    }
    if len == 0 {
      return Err(EmptyKey);
    }
    r := LoadSetEntries(rdb, env, len);
  }

  // ------------------------------------------------------------------ hashes

  lemma {:induction false} FlattenAppend(ps: seq<Pair>, p: Pair)
    ensures Flatten(ps + [p]) == Flatten(ps) + [p.0] + [p.1]
  {
    if ps == [] {
      assert Flatten([p]) == [p.0, p.1] + Flatten([]);
    } else {
      FlattenAppend(ps[1..], p);
      assert (ps + [p])[1..] == ps[1..] + [p];
    }
  }

  lemma {:induction false} UnflattenCons(p: Pair, xs: seq<Bytes>)
    requires |xs| % 2 == 0
    ensures Unflatten([p.0, p.1] + xs) == [p] + Unflatten(xs)
  {
    assert ([p.0, p.1] + xs)[2..] == xs;
  }

  lemma {:induction false} FlattenStep(ps: seq<Pair>)
    ensures ps == [] ==> Flatten(ps) == []
    ensures ps != [] ==> Flatten(ps) == [ps[0].0, ps[0].1] + Flatten(ps[1..])
  {
  }

  lemma {:induction false} UnflattenPrefix(ps: seq<Pair>, ys: seq<Bytes>)
    requires |ys| % 2 == 0
    ensures Unflatten(Flatten(ps) + ys) == ps + Unflatten(ys)
  {
    hide Flatten, Unflatten;
    FlattenStep(ps);
    if ps == [] {
      assert Flatten(ps) + ys == ys;
    } else {
      UnflattenPrefix(ps[1..], ys);
      AppendTwo([ps[0].0, ps[0].1], Flatten(ps[1..]), ys);
      UnflattenCons(ps[0], Flatten(ps[1..]) + ys);
      assert [ps[0]] + (ps[1..] + Unflatten(ys)) == ps + Unflatten(ys);
    }
  }

  lemma DuplicateFieldPersists(ps: seq<Pair>, qs: seq<Pair>)
    requires !Distinct(Fields(ps))
    ensures !Distinct(Fields(ps + qs))
  {
    var i, j :| 0 <= i < j < |ps| && Fields(ps)[i] == Fields(ps)[j];
    assert Fields(ps + qs)[i] == Fields(ps + qs)[j];
  }

  lemma OversizedPersists(limits: Limits, ps: seq<Pair>, qs: seq<Pair>, i: nat)
    requires i < |ps| && Oversized(limits, ps, i)
    ensures !StaysPacked(limits, ps + qs)
  {
    hide TooLarge;
    assert (ps + qs)[..i] == ps[..i] && (ps + qs)[i] == ps[i];
    assert Oversized(limits, ps + qs, i);
  }

  /** What has been read so far decides that the whole hash holds a duplicate field, or cannot stay a listpack. */
  lemma {:induction false} PrefixDecides(env: Env, total: nat, s0: Bytes, ps: seq<Pair>, k: nat, s: Bytes)
    requires Continues(env.z, total, s0, Flatten(ps), k, s) && k % 2 == 0
    requires total % 2 == 0 && ParseStrings(env.z, total, s0).Some?
    ensures var all := Unflatten(ParseStrings(env.z, total, s0).value.0);
            && (!Distinct(Fields(ps)) ==> !Distinct(Fields(all)))
            && ((exists i :: 0 <= i < |ps| && Oversized(env.limits, ps, i)) ==> !StaysPacked(env.limits, all))
  {
    hide ParseStrings, Flatten, Unflatten, Distinct, Oversized, StaysPacked, Fields;
    var ys := ParseStrings(env.z, k, s).value.0;
    UnflattenPrefix(ps, ys);
    if !Distinct(Fields(ps)) {
      DuplicateFieldPersists(ps, Unflatten(ys));
    }
    if exists i :: 0 <= i < |ps| && Oversized(env.limits, ps, i) {
      var i :| 0 <= i < |ps| && Oversized(env.limits, ps, i);
      OversizedPersists(env.limits, ps, Unflatten(ys), i);
    }
  }

  method LoadPair(rdb: Rio, z: Lzf, ghost total: nat, ghost s0: Bytes, ghost ps: seq<Pair>, ghost k: nat)
    returns (r: Option<Pair>)
    requires Continues(z, total, s0, Flatten(ps), k, rdb.buf) && k >= 2
    modifies rdb
    ensures r == None ==> ParseStrings(z, total, s0) == None
    ensures r.Some? ==> Continues(z, total, s0, Flatten(ps + [r.value]), k - 2, rdb.buf)
    ensures r.Some? ==> rdb.readError == old(rdb.readError)
  {
    hide Continues, ParseString, ParseStrings, Flatten;
    ContinuesStep(z, total, s0, Flatten(ps), k, rdb.buf);
    var field := GenericLoadStringObject(rdb, z);
    if field.None? {
      return None;
    }
    ContinuesStep(z, total, s0, Flatten(ps) + [field.value], k - 1, rdb.buf);
    var value := GenericLoadStringObject(rdb, z);
    if value.None? {
      return None;
    }
    r := Some((field.value, value.value));
    FlattenAppend(ps, r.value);
  }

  lemma FieldsAppend(ps: seq<Pair>, p: Pair)
    ensures Fields(ps + [p]) == Fields(ps) + [p.0]
    ensures Distinct(Fields(ps + [p])) <==> Distinct(Fields(ps)) && p.0 !in Fields(ps)
  {
    assert Fields(ps + [p]) == Fields(ps) + [p.0];
    DistinctAppend(Fields(ps), p.0);
  }

  /** First phase: pairs go to a listpack until one is too large for it, which converts the hash to a table. */
  method LoadHashPacked(rdb: Rio, env: Env, len0: nat, ghost s0: Bytes) returns (r: Result<HashObject, LoadError>, len: nat)
    requires rdb.buf == s0 && len0 <= env.limits.hashMaxListpack
    modifies rdb
    ensures ParseStrings(env.z, 2 * len0, s0) == None && r.Err? ==> r.error == Corrupt
    ensures ParseStrings(env.z, 2 * len0, s0).Some? && r.Err? ==>
      r.error == Corrupt && BuildHash(env, Unflatten(ParseStrings(env.z, 2 * len0, s0).value.0)) == Err(Corrupt)
    ensures r.Ok? ==> Continues(env.z, 2 * len0, s0, Flatten(r.value.pairs), 2 * len, rdb.buf)
    ensures r.Ok? ==> rdb.readError == old(rdb.readError)
    ensures r.Ok? && r.value.TableHash? ==> Distinct(Fields(r.value.pairs))
    ensures r.Ok? && r.value.TableHash? ==>
      exists i :: 0 <= i < |r.value.pairs| && Oversized(env.limits, r.value.pairs, i)
    ensures r.Ok? && r.value.ListpackHash? ==>
      len == 0 && |r.value.pairs| == len0 && (env.deep ==> Distinct(Fields(r.value.pairs))) &&
      forall i :: 0 <= i < len0 ==> !Oversized(env.limits, r.value.pairs, i)
  {
    hide ParseStrings, Continues, Flatten, Unflatten, Distinct, TooLarge, Oversized, Fields;
    len := len0;
    var pairs: seq<Pair> := [];
    var seen: set<Bytes> := {};
    ghost var total := 2 * len0;
    ContinuesInit(env.z, total, s0);
    FlattenEmpty();
    DistinctEmpty(Fields(pairs));
    while len > 0
      invariant 0 <= len <= len0 && |pairs| == len0 - len
      invariant rdb.readError == old(rdb.readError)
      invariant Continues(env.z, total, s0, Flatten(pairs), 2 * len, rdb.buf)
      invariant forall i :: 0 <= i < |pairs| ==> !Oversized(env.limits, pairs, i)
      invariant env.deep ==> Distinct(Fields(pairs)) && seen == Elements(Fields(pairs))
    {
      ghost var k := 2 * len;
      len := len - 1;
      var p := LoadPair(rdb, env.z, total, s0, pairs, k);
      if p.None? {
        return Err(Corrupt), len;
      }
      ghost var all := pairs + [p.value];
      FieldsAppend(pairs, p.value);
      ElementsAppend(Fields(pairs), p.value.0);
      if ParseStrings(env.z, total, s0).Some? {
        PrefixDecides(env, total, s0, all, 2 * len, rdb.buf);
      }
      if env.deep {
        if p.value.0 in seen {
          return Err(Corrupt), len;
        }
        seen := seen + {p.value.0};
      }
      OversizedAppend(env.limits, pairs, p.value);
      if TooLarge(env.limits, pairs, p.value) {
        assert Oversized(env.limits, all, |pairs|);
        var dup := HasDuplicate(Fields(pairs));
        if dup || p.value.0 in Fields(pairs) {
          return Err(Corrupt), len;
        }
        return Ok(TableHash(pairs + [p.value])), len;
      }
      pairs := pairs + [p.value];
    }
    r := Ok(ListpackHash(pairs));
  }

  lemma FlattenEmpty()
    ensures Flatten([]) == []
  {
  }

  lemma OversizedAppend(limits: Limits, ps: seq<Pair>, p: Pair)
    ensures Oversized(limits, ps + [p], |ps|) <==> TooLarge(limits, ps, p)
    ensures forall i :: 0 <= i < |ps| ==> (Oversized(limits, ps + [p], i) <==> Oversized(limits, ps, i))
  {
    hide TooLarge;
    assert (ps + [p])[..|ps|] == ps;
    forall i | 0 <= i < |ps| ensures Oversized(limits, ps + [p], i) <==> Oversized(limits, ps, i) {
      assert (ps + [p])[..i] == ps[..i];
    }
  }

  /** Converting a listpack to a table inserts the fields one by one and stops the server on a repeated one. */
  method HasDuplicate(xs: seq<Bytes>) returns (dup: bool)
    ensures dup <==> !Distinct(xs)
  {
    var seen: set<Bytes> := {};
    for i := 0 to |xs|
      invariant seen == Elements(xs[..i]) && Distinct(xs[..i])
    {
      assert xs[..i + 1] == xs[..i] + [xs[i]];
      DistinctAppend(xs[..i], xs[i]);
      ElementsAppend(xs[..i], xs[i]);
      if xs[i] in seen {
        DistinctPrefix(xs, i + 1);
        return true;
      }
      seen := seen + {xs[i]};
    }
    assert xs[..|xs|] == xs;
    dup := false;
  }

  lemma DistinctPrefix(xs: seq<Bytes>, n: nat)
    requires n <= |xs| && !Distinct(xs[..n])
    ensures !Distinct(xs)
  {
    var i, j :| 0 <= i < j < n && xs[..n][i] == xs[..n][j];
    assert xs[i] == xs[j];
  }

  /** Second phase: the remaining pairs go straight into the table. */
  method LoadHashTable(rdb: Rio, env: Env, before: seq<Pair>, len0: nat, ghost total: nat, ghost s0: Bytes)
    returns (r: Result<HashObject, LoadError>)
    requires Continues(env.z, total, s0, Flatten(before), 2 * len0, rdb.buf) && total % 2 == 0
    requires Distinct(Fields(before))
    modifies rdb
    ensures match ParseStrings(env.z, total, s0)
            case None => r == Err(Corrupt)
            case Some((xs, rest)) =>
              if Distinct(Fields(Unflatten(xs))) then
                r == Ok(TableHash(Unflatten(xs))) && rdb.buf == rest && rdb.readError == old(rdb.readError)
              else r == Err(Corrupt)
  {
    hide ParseStrings, Continues, Flatten, Unflatten, Distinct, Oversized, StaysPacked;
    var pairs, len := before, len0;
    while len > 0
      invariant 0 <= len <= len0
      invariant rdb.readError == old(rdb.readError)
      invariant Continues(env.z, total, s0, Flatten(pairs), 2 * len, rdb.buf)
      invariant Distinct(Fields(pairs))
    {
      ghost var k := 2 * len;
      len := len - 1;
      var p := LoadPair(rdb, env.z, total, s0, pairs, k);
      if p.None? {
        return Err(Corrupt);
      }
      FieldsAppend(pairs, p.value);
      if p.value.0 in Fields(pairs) {
        if ParseStrings(env.z, total, s0).Some? {
          PrefixDecides(env, total, s0, pairs + [p.value], 2 * len, rdb.buf);
        }
        return Err(Corrupt);
      }
      pairs := pairs + [p.value];
    }
    ContinuesDone(env.z, total, s0, Flatten(pairs), rdb.buf);
    UnflattenFlatten(pairs);
    r := Ok(TableHash(pairs));
  }

  /** The two phases together read exactly len pairs and build the hash that BuildHash describes. */
  method LoadHashEntries(rdb: Rio, env: Env, len: nat) returns (r: Result<HashObject, LoadError>)
    modifies rdb
    ensures match ParseStrings(env.z, 2 * len, old(rdb.buf))
            case None => r == Err(Corrupt)
            case Some((xs, rest)) =>
              r == BuildHash(env, Unflatten(xs)) && (r.Ok? ==> rdb.buf == rest && rdb.readError == old(rdb.readError))
  {
    hide ParseStrings, Continues, Flatten, Unflatten, Distinct, Oversized;
    ghost var s0 := rdb.buf;
    if len > env.limits.hashMaxListpack {
      ContinuesInit(env.z, 2 * len, s0);
      FlattenEmpty();
      DistinctEmpty(Fields([]));
      r := LoadHashTable(rdb, env, [], len, 2 * len, s0);
    } else {
      var left: nat;
      r, left := LoadHashPacked(rdb, env, len, s0);
      if r.Err? {
        return;
      }
      ghost var ps := r.value.pairs;
      if r.value.TableHash? {
        if ParseStrings(env.z, 2 * len, s0).Some? {
          PrefixDecides(env, 2 * len, s0, ps, 2 * left, rdb.buf);
        }
        r := LoadHashTable(rdb, env, r.value.pairs, left, 2 * len, s0);
      } else {
        ContinuesDone(env.z, 2 * len, s0, Flatten(ps), rdb.buf);
        UnflattenFlatten(ps);
      }
    }
  }

  method LoadTableHash(rdb: Rio, env: Env) returns (r: Result<HashObject, LoadError>)
    modifies rdb
    ensures match ParseTable(env.z, 2, old(rdb.buf))
            case Bad => r == Err(Corrupt)
            case Empty(rest) => r == Err(EmptyKey) && rdb.buf == rest && rdb.readError == old(rdb.readError)
            case Got(xs, rest) =>
              r == BuildHash(env, Unflatten(xs)) && (r.Ok? ==> rdb.buf == rest && rdb.readError == old(rdb.readError))
  {
    hide ParseLen, ParseStrings, BuildHash, Unflatten;
    var len := LoadLen(rdb);
    if len == RDB_LENERR {
      return Err(Corrupt);
    }
    if len == 0 {
      return Err(EmptyKey);
    }
    r := LoadHashEntries(rdb, env, len);
  }

  // ------------------------------------------------------------------ packed encodings and dispatch

  /** Whether a blob's members (or fields) repeat: the scan made under deep validation and by a conversion. */
  method Repeats(scan: bool, xs: seq<Bytes>) returns (dup: bool)
    ensures dup <==> scan && !Distinct(xs)
  {
    dup := false;
    if scan {
      dup := HasDuplicate(xs);
    }
  }

  /** A blob is kept as it is unless it now holds too many entries; deep validation comes first. */
  method LoadPacked(env: Env, t: byte, blob: Bytes) returns (r: Result<Value, LoadError>)
    requires t in {RDB_TYPE_SET_INTSET, RDB_TYPE_SET_LISTPACK, RDB_TYPE_HASH_LISTPACK}
    ensures match ParsePacked(env, t, blob)
            case Err(e) => r == Err(e)
            case Ok(c) => r.Ok? && ContentOf(r.value) == c
  {
    hide Unflatten, WholePairs, Distinct, Fields, Texts, MapOf;
    if t == RDB_TYPE_SET_INTSET {
      var ints := env.pack.unpackInts(blob);
      if ints.None? {
        return Err(Corrupt);
      }
      var dup := Repeats(env.deep, Texts(ints.value));
      if dup {
        return Err(Corrupt);
      }
      if |ints.value| > env.limits.setMaxIntset {
        dup := Repeats(true, Texts(ints.value));
        return if dup then Err(Corrupt) else Ok(SetValue(TableSet(Texts(ints.value))));
      }
      return Ok(SetValue(IntSet(ints.value)));
    }
    var xs := env.pack.unpackStrings(blob);
    if xs.None? || (t == RDB_TYPE_HASH_LISTPACK && env.deep && |xs.value| % 2 != 0) {
      return Err(Corrupt);
    }
    if t == RDB_TYPE_SET_LISTPACK {
      r := LoadSetListpack(env, xs.value);
    } else {
      r := LoadHashListpack(env, xs.value);
    }
  }

  method LoadSetListpack(env: Env, xs: seq<Bytes>) returns (r: Result<Value, LoadError>)
    ensures r == if xs == [] then Err(EmptyKey)
                 else if (env.deep || |xs| > env.limits.setMaxListpack) && !Distinct(xs) then Err(Corrupt)
                 else Ok(SetValue(if |xs| > env.limits.setMaxListpack then TableSet(xs) else ListpackSet(xs)))
  {
    assert xs == [] ==> Distinct(xs);
    hide Distinct;
    var dup := Repeats(env.deep, xs);
    if dup {
      return Err(Corrupt);
    }
    if xs == [] {
      return Err(EmptyKey);
    }
    if |xs| > env.limits.setMaxListpack {
      dup := Repeats(true, xs);
      return if dup then Err(Corrupt) else Ok(SetValue(TableSet(xs)));
    }
    r := Ok(SetValue(ListpackSet(xs)));
  }

  method LoadHashListpack(env: Env, xs: seq<Bytes>) returns (r: Result<Value, LoadError>)
    ensures var ps := WholePairs(xs);
            r == if ps == [] then Err(EmptyKey)
                 else if (env.deep || |ps| > env.limits.hashMaxListpack) && !Distinct(Fields(ps)) then Err(Corrupt)
                 else Ok(HashValue(if |ps| > env.limits.hashMaxListpack then TableHash(ps) else ListpackHash(ps)))
  {
    hide Distinct, WholePairs, Fields;
    var ps := WholePairs(xs);
    if |ps| == 0 {
      DistinctEmpty(Fields(ps));
    }
    var dup := Repeats(env.deep, Fields(ps));
    if dup {
      return Err(Corrupt);
    }
    if |ps| == 0 {
      return Err(EmptyKey);
    }
    if |ps| > env.limits.hashMaxListpack {
      dup := Repeats(true, Fields(ps));
      return if dup then Err(Corrupt) else Ok(HashValue(TableHash(ps)));
    }
    r := Ok(HashValue(ListpackHash(ps)));
  }

  method LoadObject(rdb: Rio, env: Env, t: byte) returns (r: Result<Value, LoadError>)
    modifies rdb
    ensures match ParseObject(env, t, old(rdb.buf))
            case Bad => r == Err(Corrupt)
            case Empty(rest) => r == Err(EmptyKey) && rdb.buf == rest && rdb.readError == old(rdb.readError)
            case Got(c, rest) => r.Ok? && ContentOf(r.value) == c && rdb.buf == rest && rdb.readError == old(rdb.readError)
  {
    hide ParseString, ParseTable, ParsePacked, BuildHash, Unflatten, Distinct, MapOf;
    if t == RDB_TYPE_SET {
      var o := LoadTableSet(rdb, env);
      r := if o.Ok? then Ok(SetValue(o.value)) else Err(o.error);
    } else if t == RDB_TYPE_HASH {
      var o := LoadTableHash(rdb, env);
      r := if o.Ok? then Ok(HashValue(o.value)) else Err(o.error);
    } else if t in {RDB_TYPE_STRING, RDB_TYPE_SET_INTSET, RDB_TYPE_SET_LISTPACK, RDB_TYPE_HASH_LISTPACK} {
      var text := GenericLoadStringObject(rdb, env.z);
      if text.None? {
        return Err(Corrupt);
      }
      if t == RDB_TYPE_STRING {
        return Ok(StringValue(RawString(text.value)));
      }
      r := LoadPacked(env, t, text.value);
    } else {
      r := Err(Corrupt);
    }
  }
}
