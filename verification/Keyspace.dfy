/**
 * The keyspace in memory (db.c, object.c): dictionaries that share reference-counted objects. Every command leaves
 * the dictionaries as KeyspaceSpec says, and every count equal to the number of references there are.
 */
module Keyspace {
  import opened Base
  import opened KeyspaceSpec

  const OBJ_SHARED_REFCOUNT: int := 0x7FFF_FFFF
  const OBJ_STATIC_REFCOUNT: int := OBJ_SHARED_REFCOUNT - 1
  const OBJ_FIRST_SPECIAL_REFCOUNT: int := OBJ_STATIC_REFCOUNT

  class Robj {
    var refcount: int

    constructor ()
      ensures refcount == 1
    {
      refcount := 1;
    }
  }

  function SlotsOf(dict: map<Slot, Robj>, o: Robj): (r: set<Slot>) {
    set k | k in dict && dict[k] == o
  }

  /** The references there are to an object: the slots that hold it and the holds its users have. */
  ghost function Refs(dict: map<Slot, Robj>, holds: multiset<Robj>, o: Robj): (n: nat) {
    |SlotsOf(dict, o)| + holds[o]
  }

  lemma RefsInsert(dict: map<Slot, Robj>, holds: multiset<Robj>, k: Slot, v: Robj, o: Robj)
    ensures Refs(dict[k := v], holds, o) == Refs(dict, holds, o) +
      (if v == o then 1 else 0) - (if k in dict && dict[k] == o then 1 else 0)
  {
    var before, after := SlotsOf(dict, o), SlotsOf(dict[k := v], o);
    assert after == if v == o then before + {k} else before - {k};
  }

  lemma RefsRemove(dict: map<Slot, Robj>, holds: multiset<Robj>, k: Slot, o: Robj)
    ensures Refs(dict - {k}, holds, o) == Refs(dict, holds, o) - if k in dict && dict[k] == o then 1 else 0
  {
    assert SlotsOf(dict - {k}, o) == SlotsOf(dict, o) - {k};
  }

  lemma RefsOfSlot(dict: map<Slot, Robj>, holds: multiset<Robj>, k: Slot)
    requires k in dict
    ensures Refs(dict, holds, dict[k]) > 0
  {
    assert k in SlotsOf(dict, dict[k]);
  }

  /** A count that has at most gone down; a shared object stays shared. */
  predicate NoMore(before: int, after: int) {
    after <= before && (before == OBJ_SHARED_REFCOUNT ==> after == OBJ_SHARED_REFCOUNT)
  }

  class Keyspace {
    var dict: map<Slot, Robj>
    var expires: map<Slot, int>
    /** References held outside the dictionaries, by clients and by commands in progress. */
    ghost var holds: multiset<Robj>
    /** The objects that have been created and not freed. */
    ghost var live: set<Robj>

    function S(): State<Robj>
      reads this
    {
      State(dict, expires)
    }

    /** An object is counted when its refcount is the number of its references, or it is shared and uncounted. */
    ghost predicate Counted(o: Robj, uncounted: int)
      reads this, o
    {
      o.refcount == OBJ_SHARED_REFCOUNT ||
      (o.refcount == Refs(dict, holds, o) - uncounted && 0 < o.refcount < OBJ_FIRST_SPECIAL_REFCOUNT)
    }

    /** Everything referenced is live, and every live object but v, which has one slot too many, is counted. */
    ghost predicate CountedBut(v: Robj?)
      reads this, live
    {
      && S().Inv()
      && (forall k :: k in dict ==> dict[k] in live)
      && (forall o :: o in holds ==> o in live)
      && forall o :: o in live ==> Counted(o, if o == v then 1 else 0)
    }

    /**
     * Expires belong to existing keys, referenced objects are live, and live objects have exactly their count of
     * references, at least one: an object is freed exactly when its last reference goes.
     */
    ghost predicate Valid()
      reads this, live
    {
      CountedBut(null)
    }

    /** The count can take one more reference without running into the reserved values. */
    ghost predicate Room(o: Robj)
      reads o
    {
      o.refcount == OBJ_SHARED_REFCOUNT || o.refcount + 1 < OBJ_FIRST_SPECIAL_REFCOUNT
    }

    constructor ()
      ensures Valid() && S() == State(map[], map[]) && live == {} && holds == multiset{}
    {
      dict, expires, holds, live := map[], map[], multiset{}, {};
    }

    // ---------------------------------------------------------------- reference counts

    /** A new object belongs to its creator. */
    method CreateObject() returns (o: Robj)
      requires Valid()
      modifies this`holds, this`live
      ensures Valid() && fresh(o) && holds == old(holds) + multiset{o} && live == old(live) + {o}
    {
      o := new Robj();
      NoRefs(o);
      holds := holds + multiset{o};
      live := live + {o};
    }

    lemma NoRefs(o: Robj)
      requires Valid() && o !in live
      ensures Refs(dict, holds, o) == 0
    {
      assert SlotsOf(dict, o) == {};
    }

    method IncrRefCount(o: Robj)
      requires o.refcount != OBJ_STATIC_REFCOUNT
      modifies o
      ensures o.refcount == old(o.refcount) + if old(o.refcount) < OBJ_FIRST_SPECIAL_REFCOUNT then 1 else 0
    {
      if o.refcount < OBJ_FIRST_SPECIAL_REFCOUNT {
        o.refcount := o.refcount + 1;
      }
    }

    method DecrRefCount(o: Robj)
      requires o.refcount > 0
      modifies o, this`live
      ensures old(o.refcount) == 1 ==> live == old(live) - {o} && o.refcount == 1
      ensures old(o.refcount) != 1 ==> live == old(live)
      ensures old(o.refcount) != 1 ==>
        o.refcount == old(o.refcount) - if old(o.refcount) != OBJ_SHARED_REFCOUNT then 1 else 0
    {
      if o.refcount == 1 {
        live := live - {o};
      } else if o.refcount != OBJ_SHARED_REFCOUNT {
        o.refcount := o.refcount - 1;
      }
    }

    /** One more hold; the counts stay right exactly when the count has not come up to the reserved values. */
    method Retain(o: Robj)
      requires Valid() && o in live
      modifies this`holds, o
      ensures holds == old(holds) + multiset{o}
      ensures Valid() <==> old(Room(o))
    {
      IncrRefCount(o);
      holds := holds + multiset{o};
    }

    method Release(o: Robj)
      requires Valid() && o in holds
      modifies this`holds, this`live, o
      ensures Valid() && holds == old(holds) - multiset{o} && live <= old(live)
    {
      DecrRefCount(o);
      holds := holds - multiset{o};
      if o !in live && o.refcount != OBJ_SHARED_REFCOUNT {
        assert Refs(dict, holds, o) == 0;
        forall k | k in dict ensures dict[k] != o {
          RefsOfSlot(dict, holds, k);
        }
      }
    }

    // ---------------------------------------------------------------- dictionary entries

    /** dictTwoPhaseUnlinkFree: takes the entry out and gives up its reference to the value. */
    method UnlinkEntry(k: Slot)
      requires Valid() && k in dict && k !in expires
      modifies this`dict, this`live, dict[k]
      ensures Valid() && S() == old(S()).Remove(k) && live <= old(live)
      ensures NoMore(old(dict[k].refcount), old(dict[k]).refcount)
    {
      var val := dict[k];
      ghost var before := dict;
      assert expires - {k} == expires;
      RefsOfSlot(dict, holds, k);
      dict := dict - {k};
      DecrRefCount(val);
      forall o | o in live ensures Refs(dict, holds, o) == Refs(before, holds, o) - if before[k] == o then 1 else 0 {
        RefsRemove(before, holds, k, o);
      }
      if val !in live {
        RefsRemove(before, holds, k, val);
        forall j | j in dict ensures dict[j] != val {
          assert Refs(dict, holds, val) == 0;
          assert dict[j] == val ==> j in SlotsOf(dict, val);
        }
      }
    }

    /** The code keeps an extra reference while it notifies others about the entry, and drops it again. */
    method HoldBriefly(o: Robj)
      requires Valid() && o in live
      modifies o, this`live
      ensures Valid() && live == old(live) && o.refcount == old(o.refcount)
    {
      IncrRefCount(o);
      DecrRefCount(o);
    }

    method DropExpire(k: Slot)
      modifies this`expires
      ensures old(Valid()) ==> Valid()
      ensures S() == State(old(dict), old(expires) - {k})
    {
      expires := expires - {k};
    }

    /** dbGenericDelete, synchronously. */
    method GenericDelete(k: Slot) returns (deleted: bool)
      requires Valid()
      modifies this`dict, this`expires, this`live, live
      ensures Valid() && S() == old(S()).Remove(k) && live <= old(live)
      ensures (deleted <==> k in old(dict)) && k !in dict
      ensures forall o :: o in live ==> NoMore(old(o.refcount), o.refcount)
    {
      hide Keyspace.CountedBut;
      if k !in dict {
        NothingToRemove(k);
        return false;
      }
      EntryIsLive(k);
      HoldBriefly(dict[k]);
      if |expires| > 0 {
        DropExpire(k);
      } else {
        assert expires - {k} == expires;
      }
      UnlinkEntry(k);
      deleted := true;
    }

    lemma NothingToRemove(k: Slot)
      requires Valid() && k !in dict
      ensures S() == S().Remove(k)
    {
      assert expires - {k} == expires && dict - {k} == dict;
    }

    lemma EntryIsLive(k: Slot)
      requires Valid() && k in dict
      ensures dict[k] in live
    {
    }

    method ExpireIfNeeded(k: Slot, now: int) returns (expired: bool)
      requires Valid()
      modifies this`dict, this`expires, this`live, live
      ensures Valid() && S() == old(S()).ExpireIfNeeded(k, now) && live <= old(live)
      ensures expired <==> old(S()).Expired(k, now)
      ensures forall o :: o in live ==> NoMore(old(o.refcount), o.refcount)
    {
      hide Keyspace.CountedBut;
      var when := if k in expires then expires[k] else -1;
      if when < 0 || !(now > when) {
        return false;
      }
      var _ := GenericDelete(k);
      expired := true;
    }

    method LookupKey(k: Slot, now: int, noexpire: bool) returns (val: Option<Robj>)
      requires Valid()
      modifies this`dict, this`expires, this`live, live
      ensures Valid() && (S(), val) == old(S()).Lookup(k, now, noexpire) && live <= old(live)
      ensures val.Some? ==> val.value in live && k in old(dict) && val.value == old(dict)[k]
      ensures val.None? && !noexpire ==> k !in dict
      ensures forall o :: o in live ==> NoMore(old(o.refcount), o.refcount)
    {
      hide Keyspace.CountedBut;
      if k !in dict {
        return None;
      }
      EntryIsLive(k);
      val := Some(dict[k]);
      if noexpire {
        if S().Expired(k, now) {
          val := None;
        }
      } else {
        var expired := ExpireIfNeeded(k, now);
        if expired {
          val := None;
        } else {
          EntryIsLive(k);
        }
      }
    }

    /** dbAdd: the key must be new; taking a reference for the entry is up to the caller. */
    method DbAdd(k: Slot, v: Robj)
      requires Valid() && k !in dict && v in live
      modifies this`dict
      ensures CountedBut(v) && S() == old(S()).Add(k, v)
    {
      ghost var before := dict;
      dict := dict[k := v];
      forall o | o in live ensures Refs(dict, holds, o) == Refs(before, holds, o) + if v == o then 1 else 0 {
        RefsInsert(before, holds, k, v, o);
      }
    }

    /** dbSetValue: replaces the value of an existing key and gives up the reference to the old one. */
    method DbSetValue(k: Slot, v: Robj)
      requires Valid() && k in dict && v in holds
      modifies this`dict, this`live, live
      ensures CountedBut(v) && S() == old(S()).Add(k, v) && live <= old(live)
      ensures forall o :: o in live ==> NoMore(old(o.refcount), o.refcount)
    {
      EntryIsLive(k);
      HoldBriefly(dict[k]);
      ReplaceEntry(k, v);
    }

    method ReplaceEntry(k: Slot, v: Robj)
      requires Valid() && k in dict && v in holds
      modifies this`dict, this`live, dict[k]
      ensures CountedBut(v) && S() == old(S()).Add(k, v) && live <= old(live)
      ensures NoMore(old(dict[k].refcount), old(dict[k]).refcount)
    {
      var was := dict[k];
      ghost var before := dict;
      assert k in SlotsOf(before, was);
      dict := dict[k := v];
      forall o ensures Refs(dict, holds, o) == Refs(before, holds, o) +
        (if v == o then 1 else 0) - (if was == o then 1 else 0)
      {
        RefsInsert(before, holds, k, v, o);
      }
      DecrRefCount(was);
      if was !in live {
        assert was == v ==> Refs(before, holds, was) > 1;
        assert Refs(dict, holds, was) == 0;
        forall j | j in dict ensures dict[j] != was {
          assert dict[j] == was ==> j in SlotsOf(dict, was);
        }
      }
    }

    method SetExpire(k: Slot, when: int, ghost v: Robj?)
      requires CountedBut(v) && k in dict
      modifies this`expires
      ensures CountedBut(v) && S() == old(S()).SetExpire(k, when)
    {
      expires := expires[k := when];
    }

    // ---------------------------------------------------------------- commands

    /** The caller takes the reference that the new entry needs. */
    method CountEntry(v: Robj)
      requires CountedBut(v) && v in live
      modifies v
      ensures Valid() <==> old(Room(v))
      ensures !Valid() ==> v.refcount == OBJ_STATIC_REFCOUNT
    {
      IncrRefCount(v);
    }

    lemma StaticIsNotCounted(v: Robj)
      requires v in live && v.refcount == OBJ_STATIC_REFCOUNT
      ensures !Valid()
    {
    }

    /** When the entry is in place and not yet counted, is there room for one more reference? */
    lemma RoomForEntry(before: map<Slot, Robj>, k: Slot, v: Robj, refcount: int)
      requires CountedBut(v) && v in live && dict == before[k := v] && NoMore(refcount, v.refcount)
      requires refcount == OBJ_SHARED_REFCOUNT || refcount == Refs(before, holds, v) < OBJ_FIRST_SPECIAL_REFCOUNT
      ensures Room(v) <==>
        refcount == OBJ_SHARED_REFCOUNT || refcount + 1 < OBJ_FIRST_SPECIAL_REFCOUNT || (k in before && before[k] == v)
    {
      RefsInsert(before, holds, k, v, v);
      assert Counted(v, 1);
    }

    /** The entry is there or is made, by whichever way the caller's knowledge suggests; it is not counted yet. */
    method PutEntry(k: Slot, v: Robj, known: Known, now: int)
      requires Valid() && v in holds && ClaimHolds(S(), k, known)
      modifies this`dict, this`expires, this`live, live
      ensures CountedBut(v) && v in live && live <= old(live) && NoMore(old(v.refcount), v.refcount)
      ensures dict == old(dict)[k := v]
      ensures expires == if known.Unknown? then old(S()).Lookup(k, now, false).0.expires else old(expires)
    {
      hide Keyspace.CountedBut, State.Expired;
      HeldIsLive(v);
      var found := known.Exists?;
      if known.Unknown? {
        var val := LookupKey(k, now, false);
        found := val.Some?;
      } else if known.AddOrUpdate? {
        found := k in dict;
      }
      HeldIsLive(v);
      if found {
        DbSetValue(k, v);
      } else {
        DbAdd(k, v);
      }
      HeldStaysLive(v);
    }

    /** The counts stay right exactly when the value has room for a reference, or gives one up under this very key. */
    method SetKey(k: Slot, v: Robj, known: Known, keepttl: bool, now: int)
      requires Valid() && v in holds && ClaimHolds(S(), k, known)
      modifies this`dict, this`expires, this`live, live
      ensures S() == KeyspaceSpec.SetKey(old(S()), k, v, known, keepttl, now) && live <= old(live)
      ensures Valid() <==> old(Room(v) || (k in dict && dict[k] == v))
    {
      hide Keyspace.CountedBut, Refs, State.Expired;
      HeldIsLive(v);
      HeldIsCounted(v);
      ghost var refcount := v.refcount;
      PutEntry(k, v, known, now);
      RoomForEntry(old(dict), k, v, refcount);
      CountEntry(v);
      ghost var counted := Valid();
      if !keepttl {
        DropExpire(k);
      }
      if !counted {
        StaticIsNotCounted(v);
      }
    }

    lemma HeldIsCounted(v: Robj)
      requires Valid() && v in holds
      ensures v.refcount == OBJ_SHARED_REFCOUNT || v.refcount == Refs(dict, holds, v) < OBJ_FIRST_SPECIAL_REFCOUNT
    {
      assert Counted(v, 0);
    }

    lemma HeldIsLive(v: Robj)
      requires Valid() && v in holds
      ensures v in live
    {
    }

    lemma HeldStaysLive(v: Robj)
      requires CountedBut(v) && v in holds
      ensures v in live
    {
    }

    method DelGeneric(keys: seq<Slot>, now: int) returns (numdel: nat)
      requires Valid()
      modifies this`dict, this`expires, this`live, live
      ensures Valid() && (S(), numdel) == DelKeys(old(S()), keys, now) && live <= old(live)
    {
      hide Keyspace.CountedBut, State.ExpireIfNeeded, State.Remove;
      numdel := 0;
      var j := 0;
      while j < |keys|
        invariant 0 <= j <= |keys| && Valid() && live <= old(live)
        invariant (S(), numdel) == DelKeys(old(S()), keys[..j], now)
      {
        assert keys[..j + 1][..j] == keys[..j];
        var _ := ExpireIfNeeded(keys[j], now);
        if keys[j] !in dict {
          NothingToRemove(keys[j]);
        }
        var deleted := GenericDelete(keys[j]);
        if deleted {
          numdel := numdel + 1;
        }
        j := j + 1;
      }
      assert keys[..j] == keys;
    }

    /** A hold on an object that goes over to a dictionary entry. */
    method DbAddHeld(k: Slot, v: Robj)
      requires Valid() && k !in dict && v in holds
      modifies this`dict, this`holds
      ensures Valid() && S() == old(S()).Add(k, v) && holds == old(holds) - multiset{v}
    {
      HeldIsLive(v);
      DbAdd(k, v);
      holds := holds - multiset{v};
    }

    /** The target entry takes over the hold and the expire, and the source entry goes. */
    method HandOver(a: Slot, b: Slot, v: Robj, expire: int)
      requires Valid() && v in holds && b !in dict
      modifies this`dict, this`expires, this`live, this`holds, live
      ensures Valid() && S() == MoveEntry(old(S()), a, b, v, expire)
      ensures live <= old(live) && holds == old(holds) - multiset{v}
    {
      hide Keyspace.CountedBut;
      DbAddHeld(b, v);
      if expire != -1 {
        SetExpire(b, expire, null);
      }
      var _ := GenericDelete(a);
    }

    /** The rest of RENAME, with a hold on the value: the target entry takes the hold over, or it is given up. */
    method RenameHeld(a: Slot, b: Slot, v: Robj, expire: int, nx: bool, now: int) returns (reply: Reply<Robj>)
      requires Valid() && v in holds
      modifies this`dict, this`expires, this`live, this`holds, live
      ensures Valid() && (S(), reply) == RenameFound(old(S()), a, b, v, expire, nx, now)
      ensures live <= old(live) && holds == old(holds) - multiset{v}
    {
      hide Keyspace.CountedBut, State.Expired, State.Lookup, State.GetExpire, MoveEntry;
      var target := LookupKey(b, now, false);
      HeldIsLive(v);
      if target.Some? {
        if nx {
          Release(v);
          return Count(0);
        }
        var _ := GenericDelete(b);
      }
      HandOver(a, b, v, expire);
      reply := if nx then Count(1) else Done;
    }

    method RenameGeneric(a: Slot, b: Slot, nx: bool, now: int) returns (reply: Reply<Robj>)
      requires Valid() && (a in dict ==> Room(dict[a]))
      modifies this`dict, this`expires, this`live, this`holds, live
      ensures Valid() && (S(), reply) == RenameKey(old(S()), a, b, nx, now)
      ensures live <= old(live) && holds == old(holds)
    {
      hide Keyspace.CountedBut, State.Lookup, RenameFound;
      var o := LookupKey(a, now, false);
      if o.None? {
        return NoSuchKey;
      }
      if a == b {
        return if nx then Count(0) else Done;
      }
      Retain(o.value);
      var expire := S().GetExpire(a);
      reply := RenameHeld(a, b, o.value, expire, nx, now);
    }

    method MoveGeneric(a: Slot, b: Slot, dbnum: nat, now: int) returns (reply: Reply<Robj>)
      requires Valid() && (a in dict ==> Room(dict[a]))
      modifies this`dict, this`expires, this`live, live
      ensures Valid() && (S(), reply) == MoveKey(old(S()), a, b, dbnum, now)
      ensures live <= old(live)
    {
      hide Keyspace.CountedBut, State.Expired;
      if b.0 >= dbnum {
        return OutOfRange;
      }
      if a.0 == b.0 {
        return SameObject;
      }
      var o := LookupKey(a, now, false);
      if o.None? {
        return Count(0);
      }
      var expire := S().GetExpire(a);
      var target := LookupKey(b, now, false);
      if target.Some? {
        return Count(0);
      }
      EntryIsLive(a);
      DbAdd(b, o.value);
      if expire != -1 {
        SetExpire(b, expire, o.value);
      }
      CountEntry(o.value);
      var _ := GenericDelete(a);
      reply := Count(1);
    }

    /**
     * Draws keys of a database until one is not expired, deleting the expired ones on the way. What a reader can see
     * does not change, and there is no key to return only when the reader sees none.
     */
    method RandomKey(db: nat, now: int) returns (k: Option<Slot>)
      requires Valid()
      modifies this`dict, this`expires, this`live, live
      ensures Valid() && View(S(), now) == View(old(S()), now) && live <= old(live)
      ensures k.Some? ==> k.value.0 == db && k.value in View(S(), now)
      ensures k.None? ==> forall j :: j in View(S(), now) ==> j.0 != db
    {
      hide Keyspace.CountedBut;
      while true
        invariant Valid() && View(S(), now) == View(old(S()), now) && live <= old(live)
        decreases |dict|
      {
        var candidates := set j | j in dict && j.0 == db;
        if candidates == {} {
          assert forall j :: j in View(S(), now) ==> j in dict && (j.0 == db ==> j in candidates);
          return None;
        }
        var j :| j in candidates;
        InvHolds();
        ExpireKeepsView(S(), j, now);
        ghost var before := dict;
        if j in expires {
          var expired := ExpireIfNeeded(j, now);
          if expired {
            Shorter(before, j);
            continue;
          }
        }
        return Some(j);
      }
    }

    lemma InvHolds()
      requires Valid()
      ensures S().Inv()
    {
    }
  }

  lemma Shorter(m: map<Slot, Robj>, k: Slot)
    requires k in m
    ensures |m - {k}| < |m|
  {
    assert (m - {k}).Keys == m.Keys - {k};
    assert |(m - {k}).Keys| == |m.Keys| - 1;
    assert |m - {k}| == |(m - {k}).Keys|;
  }
}
