/**
 * The eviction pool of evict.c as it is in memory: 16 slots shifted in place, each with a recycled key buffer. Slots
 * are C structs, so they are values; key names are heap strings, so they are objects, and who owns which string is
 * part of what is proved.
 */
module Pool {
  import opened Base
  import opened PoolSpec

  const EVPOOL_CACHED_SDS_SIZE: nat := 255

  /** A heap string. */
  class Sds {
    var text: Bytes

    constructor (text: Bytes)
      ensures this.text == text
    {
      this.text := text;
    }
  }

  /** An empty slot has key == null; an occupied one uses its own buffer unless the name is too long for it. */
  datatype Slot = Slot(rank: real, key: Sds?, cached: Sds, dbid: nat)

  /** The buffers are the given 16, one per slot; every key is its slot's buffer or a string no other slot has. */
  ghost predicate Owned(s: seq<Slot>, buffers: set<Sds>, heap: set<Sds>) {
    && |s| == EVPOOL_SIZE && |buffers| == EVPOOL_SIZE && heap !! buffers
    && (forall i :: 0 <= i < |s| ==> s[i].cached in buffers)
    && (forall i, j :: 0 <= i < j < |s| ==> s[i].cached != s[j].cached)
    && (forall i :: 0 <= i < |s| ==> s[i].key == null || s[i].key == s[i].cached || s[i].key in heap)
    && (forall i, j :: 0 <= i < j < |s| ==> s[i].key == null || s[i].key != s[j].key)
    && (forall h :: h in heap ==> exists i :: 0 <= i < |s| && s[i].key == h)
  }

  /** Making room for an element at k: to the right when the last place is free, else over the first place. */
  function ShiftedRight<T>(s: seq<T>, k: nat, filled: T): (r: seq<T>)
    requires k < |s|
    ensures |r| == |s|
  {
    s[..k] + [filled] + s[k..|s| - 1]
  }

  function ShiftedLeft<T>(s: seq<T>, k: nat, filled: T): (r: seq<T>)
    requires k < |s|
    ensures |r| == |s|
  {
    s[1..k + 1] + [filled] + s[k + 1..]
  }

  lemma ShiftedRightAt<T>(s: seq<T>, k: nat, filled: T)
    requires k < |s|
    ensures forall i {:trigger ShiftedRight(s, k, filled)[i]} :: 0 <= i < |s| ==>
      ShiftedRight(s, k, filled)[i] == if i < k then s[i] else if i == k then filled else s[i - 1]
  {
  }

  lemma ShiftedLeftAt<T>(s: seq<T>, k: nat, filled: T)
    requires k < |s|
    ensures forall i {:trigger ShiftedLeft(s, k, filled)[i]} :: 0 <= i < |s| ==>
      ShiftedLeft(s, k, filled)[i] == if i < k then s[i + 1] else if i == k then filled else s[i]
  {
  }

  // ------------------------------------------------------------------ slots without pointers

  /** What a slot says: nothing, or a candidate. */
  datatype Row = Vacant | Taken(c: Candidate)

  function Candidates(rows: seq<Row>, count: nat): (r: seq<Candidate>)
    requires count <= |rows| && forall i :: 0 <= i < count ==> rows[i].Taken?
    ensures |r| == count
  {
    seq(count, i requires 0 <= i < count => rows[i].c)
  }

  /** The occupied slots are the first ones, in ascending order of rank. */
  ghost predicate Sorted(rows: seq<Row>, count: nat) {
    && |rows| == EVPOOL_SIZE && count <= EVPOOL_SIZE
    && (forall i :: 0 <= i < count ==> rows[i].Taken?)
    && (forall i :: count <= i < EVPOOL_SIZE ==> rows[i].Vacant?)
    && Ascending(Candidates(rows, count))
  }

  lemma RightRows(rows: seq<Row>, count: nat, k: nat, e: Candidate)
    requires Sorted(rows, count) && count < EVPOOL_SIZE && k == Position(Candidates(rows, count), e.rank)
    ensures Sorted(ShiftedRight(rows, k, Taken(e)), count + 1)
    ensures Candidates(ShiftedRight(rows, k, Taken(e)), count + 1) == Offered(Candidates(rows, count), e)
  {
    hide Ascending, Position, ShiftedRight;
    var c, r := Candidates(rows, count), ShiftedRight(rows, k, Taken(e));
    ShiftedRightAt(rows, k, Taken(e));
    assert Candidates(r, count + 1) == c[..k] + [e] + c[k..];
    OfferedKeepsOrder(c, e);
  }

  lemma LeftRows(rows: seq<Row>, k: nat, e: Candidate)
    requires Sorted(rows, EVPOOL_SIZE) && k + 1 == Position(Candidates(rows, EVPOOL_SIZE), e.rank)
    ensures Sorted(ShiftedLeft(rows, k, Taken(e)), EVPOOL_SIZE)
    ensures Candidates(ShiftedLeft(rows, k, Taken(e)), EVPOOL_SIZE) == Offered(Candidates(rows, EVPOOL_SIZE), e)
  {
    hide Ascending, Position, ShiftedLeft;
    var c, r := Candidates(rows, EVPOOL_SIZE), ShiftedLeft(rows, k, Taken(e));
    ShiftedLeftAt(rows, k, Taken(e));
    assert Candidates(r, EVPOOL_SIZE) == c[1..k + 1] + [e] + c[k + 1..];
    OfferedKeepsOrder(c, e);
  }

  lemma TakenRows(rows: seq<Row>, count: nat)
    requires Sorted(rows, count) && count > 0
    ensures Sorted(rows[count - 1 := Vacant], count - 1)
    ensures Candidates(rows[count - 1 := Vacant], count - 1) == Picked(Candidates(rows, count))
  {
    assert Candidates(rows[count - 1 := Vacant], count - 1) == Candidates(rows, count)[..count - 1];
  }

  ghost function NameOf(key: Sds?): Bytes
    reads if key == null then {} else {key}
  {
    if key == null then [] else key.text
  }

  ghost function RowOf(s: Slot): Row
    reads if s.key == null then {} else {s.key}
  {
    if s.key == null then Vacant else Taken(Candidate(s.rank, s.dbid, NameOf(s.key)))
  }

  ghost function RowsOf(s: seq<Slot>): (r: seq<Row>)
    reads set i | 0 <= i < |s| && s[i].key != null :: s[i].key
    ensures |r| == |s| && forall i :: 0 <= i < |s| ==> r[i] == RowOf(s[i])
  {
    seq(|s|, i requires 0 <= i < |s| reads set j | 0 <= j < |s| && s[j].key != null :: s[j].key => RowOf(s[i]))
  }

  /** Slot k as a hole: its buffer stays, its key is not counted. */
  function Hole(s: seq<Slot>, k: nat): (r: seq<Slot>)
    requires k < |s|
    ensures |r| == |s|
  {
    s[k := s[k].(key := null)]
  }

  lemma RoomOnTheRight(s: seq<Slot>, k: nat, buffers: set<Sds>, heap: set<Sds>)
    requires Owned(s, buffers, heap) && k < EVPOOL_SIZE && s[EVPOOL_SIZE - 1].key == null
    ensures Owned(Hole(ShiftedRight(s, k, s[k].(cached := s[EVPOOL_SIZE - 1].cached)), k), buffers, heap)
  {
    hide ShiftedRight;
    var filled := s[k].(cached := s[EVPOOL_SIZE - 1].cached);
    var r := Hole(ShiftedRight(s, k, filled), k);
    ShiftedRightAt(s, k, filled);
    forall h | h in heap ensures exists i :: 0 <= i < |r| && r[i].key == h {
      var i :| 0 <= i < |s| && s[i].key == h;
      assert r[if i < k then i else i + 1].key == h;
    }
  }

  lemma RoomOnTheLeft(s: seq<Slot>, k: nat, buffers: set<Sds>, heap: set<Sds>, heap': set<Sds>)
    requires Owned(s, buffers, heap) && k < EVPOOL_SIZE && s[0].key != null
    requires heap' == if s[0].key == s[0].cached then heap else heap - {s[0].key}
    ensures Owned(Hole(ShiftedLeft(s, k, s[k].(cached := s[0].cached)), k), buffers, heap')
  {
    hide ShiftedLeft;
    var filled := s[k].(cached := s[0].cached);
    var r := Hole(ShiftedLeft(s, k, filled), k);
    ShiftedLeftAt(s, k, filled);
    forall h | h in heap' ensures exists i :: 0 <= i < |r| && r[i].key == h {
      var i :| 0 <= i < |s| && s[i].key == h;
      assert r[if i <= k then i - 1 else i].key == h;
    }
  }

  lemma FilledOwned(s: seq<Slot>, k: nat, filled: Slot, buffers: set<Sds>, heap: set<Sds>, heap': set<Sds>)
    requires Owned(s, buffers, heap) && k < EVPOOL_SIZE && s[k].key == null && filled.cached == s[k].cached
    requires (filled.key == filled.cached && heap' == heap) ||
      (filled.key != null && filled.key !in heap && filled.key !in buffers && heap' == heap + {filled.key})
    ensures Owned(s[k := filled], buffers, heap')
  {
    var r := s[k := filled];
    forall h | h in heap' ensures exists i :: 0 <= i < |r| && r[i].key == h {
      if h in heap {
        var i :| 0 <= i < |s| && s[i].key == h;
        assert r[i].key == h;
      } else {
        assert r[k].key == h;
      }
    }
  }

  lemma TakenOwned(s: seq<Slot>, k: nat, buffers: set<Sds>, heap: set<Sds>, heap': set<Sds>)
    requires Owned(s, buffers, heap) && k < EVPOOL_SIZE && s[k].key != null
    requires heap' == if s[k].key == s[k].cached then heap else heap - {s[k].key}
    ensures Owned(s[k := s[k].(key := null, rank := 0.0)], buffers, heap')
  {
    var r := s[k := s[k].(key := null, rank := 0.0)];
    forall h | h in heap' ensures exists i :: 0 <= i < |r| && r[i].key == h {
      var i :| 0 <= i < |s| && s[i].key == h;
      assert r[i].key == h;
    }
  }

  lemma HoleRows(rows: seq<Row>, k: nat, e: Candidate)
    requires k < |rows|
    ensures ShiftedRight(rows, k, Vacant)[k := Taken(e)] == ShiftedRight(rows, k, Taken(e))
    ensures ShiftedLeft(rows, k, Vacant)[k := Taken(e)] == ShiftedLeft(rows, k, Taken(e))
  {
  }

  lemma VacantRows(rows: seq<Row>, count: nat, e: Candidate)
    requires Sorted(rows, count) && count < EVPOOL_SIZE
    ensures ShiftedRight(rows, count, Taken(e)) == rows[count := Taken(e)]
  {
  }

  lemma KeyInHeap(s: seq<Slot>, k: nat, buffers: set<Sds>, heap: set<Sds>)
    requires Owned(s, buffers, heap) && k < EVPOOL_SIZE && s[k].key != null && s[k].key != s[k].cached
    ensures s[k].key in heap
  {
  }

  /** The 16 slots hold all of the 16 buffers: shifting slots about never loses or repeats one. */
  lemma BuffersAreRecycled(s: seq<Slot>, buffers: set<Sds>, heap: set<Sds>)
    requires Owned(s, buffers, heap)
    ensures (set i | 0 <= i < |s| :: s[i].cached) == buffers
  {
    var cached := seq(|s|, i requires 0 <= i < |s| => s[i].cached);
    assert Distinct(cached);
    DistinctSize(cached);
    SubsetOfSameSize(Elements(cached), buffers);
    forall b | b in buffers ensures b in set i | 0 <= i < |s| :: s[i].cached {
      var i :| 0 <= i < |cached| && cached[i] == b;
    }
  }

  /** The heap string that goes when a slot is emptied: its key, unless that is the slot's own buffer. */
  ghost function Dropped(s: Slot): set<Sds> {
    if s.key == null || s.key == s.cached then {} else {s.key}
  }

  /** Sixteen empty slots, each with a buffer of its own. */
  method EmptySlots() returns (a: array<Slot>, ghost made: set<Sds>)
    ensures fresh(a) && fresh(made) && a.Length == EVPOOL_SIZE && Owned(a[..], made, {})
    ensures forall i :: 0 <= i < EVPOOL_SIZE ==> a[i].key == null
  {
    var first := new Sds([]);
    a := new Slot[EVPOOL_SIZE](i => Slot(0.0, null, first, 0));
    made := {};
    var j := 0;
    while j < EVPOOL_SIZE
      invariant 0 <= j <= EVPOOL_SIZE && a.Length == EVPOOL_SIZE && fresh(a) && fresh(made) && |made| == j
      invariant forall i :: 0 <= i < j ==> a[i].cached in made
      invariant forall i, k :: 0 <= i < k < j ==> a[i].cached != a[k].cached
      invariant forall i :: 0 <= i < EVPOOL_SIZE ==> a[i].key == null
    {
      var cached := new Sds([]);
      a[j] := Slot(0.0, null, cached, 0);
      made := made + {cached};
      j := j + 1;
    }
  }

  class EvictionPool {
    const slots: array<Slot>
    ghost const buffers: set<Sds>
    ghost var heap: set<Sds>
    ghost var count: nat

    ghost predicate Valid()
      reads this, slots, buffers, heap
    {
      && slots.Length == EVPOOL_SIZE
      && Owned(slots[..], buffers, heap)
      && Sorted(RowsOf(slots[..]), count)
    }

    /** The candidates in the pool, worst first. */
    ghost function Contents(): (r: seq<Candidate>)
      requires Valid()
      reads this, slots, buffers, heap
      ensures |r| == count
    {
      Candidates(RowsOf(slots[..]), count)
    }

    constructor ()
      ensures Valid() && fresh(slots) && fresh(buffers) && heap == {} && Contents() == []
    {
      var a;
      ghost var made;
      a, made := EmptySlots();
      slots := a;
      buffers := made;
      heap := {};
      count := 0;
      new;
      assert forall i :: 0 <= i < EVPOOL_SIZE ==> RowsOf(slots[..])[i].Vacant?;
    }

    /** Frees a heap string; it must be one the pool still owns, so no string is freed twice. */
    ghost method Free(s: Sds)
      requires s in heap
      modifies this`heap
      ensures heap == old(heap) - {s}
    {
      heap := heap - {s};
    }

    /** The scan for the first free slot or the first slot whose rank is not below the new one. */
    method FindSlot(rank: real) returns (k: nat)
      requires Valid()
      ensures k == Position(Contents(), rank)
    {
      ghost var rows := RowsOf(slots[..]);
      k := 0;
      while k < EVPOOL_SIZE && slots[k].key != null && slots[k].rank < rank
        invariant k <= count
        invariant forall i :: 0 <= i < k ==> Contents()[i].rank < rank
      {
        assert rows[k].Taken?;
        k := k + 1;
      }
      assert k < count ==> rows[k].Taken?;
      PositionIs(Contents(), rank, k);
    }

    method ShiftRight(k: nat)
      requires Valid() && k < EVPOOL_SIZE && slots[EVPOOL_SIZE - 1].key == null
      modifies slots
      ensures Owned(Hole(slots[..], k), buffers, heap)
      ensures forall i :: 0 <= i < EVPOOL_SIZE && i != k ==>
        RowOf(slots[i]) == ShiftedRight(old(RowsOf(slots[..])), k, Vacant)[i]
    {
      hide Owned, Sorted, ShiftedRight, RowsOf, NameOf;
      ghost var s0 := slots[..];
      ShiftedRightAt(RowsOf(s0), k, Vacant);
      RoomOnTheRight(s0, k, buffers, heap);
      var cached := slots[EVPOOL_SIZE - 1].cached;
      forall i | k < i < EVPOOL_SIZE {
        slots[i] := slots[i - 1];
      }
      slots[k] := slots[k].(cached := cached);
      ShiftedRightAt(s0, k, s0[k].(cached := cached));
      assert slots[..] == ShiftedRight(s0, k, s0[k].(cached := cached));
    }

    method ShiftLeft(k: nat)
      requires Valid() && k < EVPOOL_SIZE && slots[0].key != null
      modifies slots, this`heap
      ensures heap == old(heap) - Dropped(old(slots[0]))
      ensures Owned(Hole(slots[..], k), buffers, heap)
      ensures forall i :: 0 <= i < EVPOOL_SIZE && i != k ==>
        RowOf(slots[i]) == ShiftedLeft(old(RowsOf(slots[..])), k, Vacant)[i]
    {
      hide Owned, Sorted, ShiftedLeft, RowsOf, NameOf;
      ghost var s0, h0 := slots[..], heap;
      ShiftedLeftAt(RowsOf(s0), k, Vacant);
      var cached := slots[0].cached;
      if slots[0].key != slots[0].cached {
        KeyInHeap(s0, 0, buffers, heap);
        Free(slots[0].key);
      }
      RoomOnTheLeft(s0, k, buffers, h0, heap);
      forall i | 0 <= i < k {
        slots[i] := slots[i + 1];
      }
      slots[k] := slots[k].(cached := cached);
      ShiftedLeftAt(s0, k, s0[k].(cached := cached));
      assert slots[..] == ShiftedLeft(s0, k, s0[k].(cached := cached));
    }

    /** Fills the hole at k, reusing the slot's buffer when the name fits in it. */
    method Fill(k: nat, rank: real, dbid: nat, key: Bytes)
      requires k < EVPOOL_SIZE && slots.Length == EVPOOL_SIZE
      requires Owned(Hole(slots[..], k), buffers, heap)
      modifies slots, buffers, this`heap
      ensures fresh(heap - old(heap)) && Owned(slots[..], buffers, heap)
      ensures RowOf(slots[k]) == Taken(Candidate(rank, dbid, key))
      ensures slots[k].key == slots[k].cached <==> |key| <= 255
      ensures forall i :: 0 <= i < EVPOOL_SIZE && i != k ==> RowOf(slots[i]) == old(RowOf(slots[i]))
    {
      ghost var s0 := slots[..];
      if |key| > EVPOOL_CACHED_SDS_SIZE {
        var dup := new Sds(key);
        slots[k] := slots[k].(key := dup);
        heap := heap + {dup};
      } else {
        assert Hole(s0, k)[k].cached in buffers;
        slots[k].cached.text := key;
        slots[k] := slots[k].(key := slots[k].cached);
      }
      slots[k] := slots[k].(rank := rank, dbid := dbid);
      FilledOwned(Hole(s0, k), k, slots[k], buffers, old(heap), heap);
      assert slots[..] == Hole(s0, k)[k := slots[k]];
      assert forall i :: 0 <= i < EVPOOL_SIZE && i != k ==> slots[i] == Hole(s0, k)[i];
    }

    /** Case one: slot k is the first vacant one, and nothing moves. */
    method InsertAtEnd(k: nat, rank: real, dbid: nat, key: Bytes)
      requires Valid() && k == count == Position(Contents(), rank) && k < EVPOOL_SIZE && slots[k].key == null
      modifies this`heap, this`count, slots, buffers
      ensures Valid() && fresh(heap - old(heap))
      ensures Contents() == Offered(old(Contents()), Candidate(rank, dbid, key))
    {
      hide Owned, Position, Offered, ShiftedRight, Ascending, RowsOf;
      ghost var e, rows := Candidate(rank, dbid, key), RowsOf(slots[..]);
      assert Hole(slots[..], k) == slots[..];
      RightRows(rows, count, k, e);
      VacantRows(rows, count, e);
      Fill(k, rank, dbid, key);
      count := count + 1;
      assert RowsOf(slots[..]) == ShiftedRight(rows, k, Taken(e));
    }

    /** Case two: the slots from k on move one to the right. */
    method InsertRight(k: nat, rank: real, dbid: nat, key: Bytes)
      requires Valid() && k == Position(Contents(), rank) && k < EVPOOL_SIZE && slots[EVPOOL_SIZE - 1].key == null
      modifies this`heap, this`count, slots, buffers
      ensures Valid() && fresh(heap - old(heap))
      ensures Contents() == Offered(old(Contents()), Candidate(rank, dbid, key))
    {
      hide Owned, Position, Offered, ShiftedRight, Ascending, RowsOf;
      ghost var e, rows := Candidate(rank, dbid, key), RowsOf(slots[..]);
      assert rows[EVPOOL_SIZE - 1].Vacant?;
      RightRows(rows, count, k, e);
      HoleRows(rows, k, e);
      ShiftRight(k);
      Fill(k, rank, dbid, key);
      count := count + 1;
      assert RowsOf(slots[..]) == ShiftedRight(rows, k, Taken(e));
    }

    /** Case three: the pool is full, so the worst slot is dropped and the slots up to k move one to the left. */
    method InsertLeft(k: nat, rank: real, dbid: nat, key: Bytes)
      requires Valid() && k + 1 == Position(Contents(), rank) && count == EVPOOL_SIZE
      modifies this`heap, this`count, slots, buffers
      ensures Valid() && fresh(heap - old(heap))
      ensures Contents() == Offered(old(Contents()), Candidate(rank, dbid, key))
    {
      hide Owned, Position, Offered, ShiftedLeft, Ascending, RowsOf;
      ghost var e, rows := Candidate(rank, dbid, key), RowsOf(slots[..]);
      LeftRows(rows, k, e);
      HoleRows(rows, k, e);
      assert rows[0].Taken?;
      ShiftLeft(k);
      Fill(k, rank, dbid, key);
      assert RowsOf(slots[..]) == ShiftedLeft(rows, k, Taken(e));
    }

    /**
     * Offers one sampled key to the pool. The resulting contents are those of the bounded queue, the 16 buffers are
     * still one per slot, and every heap string still belongs to exactly one slot.
     */
    method Insert(rank: real, dbid: nat, key: Bytes)
      requires Valid()
      modifies this`heap, this`count, slots, buffers
      ensures Valid() && fresh(heap - old(heap))
      ensures Contents() == Offered(old(Contents()), Candidate(rank, dbid, key))
    {
      hide Owned, Position, Offered, Ascending, RowsOf;
      ghost var rows := RowsOf(slots[..]);
      assert slots[EVPOOL_SIZE - 1].key == null <==> rows[EVPOOL_SIZE - 1].Vacant?;
      var k := FindSlot(rank);
      if k == 0 && slots[EVPOOL_SIZE - 1].key != null {
        OfferedRejected(Contents(), Candidate(rank, dbid, key));
        return;
      }
      if k < EVPOOL_SIZE && slots[k].key == null {
        assert rows[k].Vacant?;
        InsertAtEnd(k, rank, dbid, key);
      } else if slots[EVPOOL_SIZE - 1].key == null {
        InsertRight(k, rank, dbid, key);
      } else {
        InsertLeft(k - 1, rank, dbid, key);
      }
    }

    /** Empties the last occupied slot, as the search for a victim does with every slot it looks at. */
    method TakeLast(k: nat)
      requires Valid() && k + 1 == count
      modifies slots, this`heap, this`count
      ensures Valid() && heap == old(heap) - Dropped(old(slots[k]))
      ensures Contents() == Picked(old(Contents()))
    {
      hide Owned;
      ghost var s0, rows := slots[..], RowsOf(slots[..]);
      assert rows[k].Taken?;
      TakenOwned(s0, k, buffers, heap, if s0[k].key == s0[k].cached then heap else heap - {s0[k].key});
      if slots[k].key != slots[k].cached {
        KeyInHeap(s0, k, buffers, heap);
        Free(slots[k].key);
      }
      slots[k] := slots[k].(key := null, rank := 0.0);
      count := count - 1;
      assert slots[..] == s0[k := s0[k].(key := null, rank := 0.0)];
      assert RowsOf(slots[..]) == rows[k := Vacant];
      TakenRows(rows, k + 1);
    }
  }
}
