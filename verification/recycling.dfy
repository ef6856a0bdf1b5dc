/**
  The chunked table with the id-recycling bug left in (namespace `v3`).  It has
  the same storage as the slot map, but a slot holds a plain index, set when
  the slot is created and overwritten with -1 when it is destroyed, so a
  handle is only an index and cannot tell one occupant of a slot from the next.
 */
module RecyclingTable {
  import opened Handles
  import opened Options
  import opened SlotMap

  /** The `id` of a destroyed object. */
  const Destroyed: int := -1

  /**
    Growth (lines 85-90): append a chunk whose contents are whatever
    `new object[chunk_size]` leaves there (`garbage`), and push its indices,
    highest first.
   */
  function GrowUnstamped(t: Table, garbage: Chunk): (r: Table)
    requires WellFormed(t)
    requires |garbage| == ChunkSize
    requires Capacity(t) + ChunkSize <= IndexLimit
    ensures WellFormed(r)
    ensures Capacity(r) == Capacity(t) + ChunkSize
    ensures forall i | 0 <= i < Capacity(t) :: TagAt(r, i) == TagAt(t, i)
    ensures |r.freeList| == |t.freeList| + ChunkSize
    ensures Last(r.freeList) == Capacity(t)
  {
    var r := Table(t.chunks + [garbage], t.freeList + Descending(Capacity(t), ChunkSize));
    PrefixTags(t, r);
    r
  }

  /** `create_object` (lines 84-96): grow if needed, pop an index, store it in the slot, return it. */
  function Create(t: Table, garbage: Chunk): (r: (Table, int))
    requires WellFormed(t)
    requires |garbage| == ChunkSize
    requires CanCreate(t)
    ensures WellFormed(r.0)
    ensures 0 <= r.1 < Capacity(r.0) && TagAt(r.0, r.1) == r.1
    ensures |t.freeList| > 0 ==> r.1 == Last(t.freeList) && r.0.freeList + [r.1] == t.freeList
  {
    var g := if |t.freeList| == 0 then GrowUnstamped(t, garbage) else t;
    var free := Last(g.freeList);
    var s := SetTag(g, free, free);
    (Table(s.chunks, g.freeList[..|g.freeList| - 1]), free)
  }

  /** `get_object` (lines 98-101): the slot, unless its `id` is -1; no bounds check. */
  function Get(t: Table, id: int): (r: Option<Address>)
    requires WellFormed(t)
    requires 0 <= id < Capacity(t)
    ensures r.Some? <==> TagAt(t, id) != Destroyed
    ensures r.Some? ==> r.value == AddressOf(id)
  {
    if TagAt(t, id) == Destroyed then None else Some(AddressOf(id))
  }

  /** `destroy_object` (lines 103-106): mark the slot with -1 and push its index. */
  function Destroy(t: Table, id: int): (r: Table)
    requires WellFormed(t)
    requires 0 <= id < Capacity(t)
    requires Get(t, id).Some?
    ensures WellFormed(r)
    ensures r.freeList == t.freeList + [id]
    ensures Capacity(r) == Capacity(t)
    ensures Get(r, id) == None
  {
    var s := SetTag(t, id, Destroyed);
    Table(s.chunks, s.freeList + [id])
  }

  /**
    The recycling bug: destroying an object and creating another hands the
    destroyed object's id out again, and `get_object` then accepts the
    destroyed id as if it still named the object it was issued for.  Compare
    `SlotMapProperties.RecycleRejectsStale`.
   */
  lemma StaleIdAccepted(t: Table, id: int, garbage: Chunk)
    requires WellFormed(t)
    requires |garbage| == ChunkSize
    requires 0 <= id < Capacity(t)
    requires Get(t, id).Some?
    ensures var t1 := Destroy(t, id);
      CanCreate(t1) &&
      var (t2, id2) := Create(t1, garbage);
      id2 == id && Get(t2, id).Some?
  {
  }

  /** The same bug from an empty table: the first id is handed out twice and its stale copy is accepted. */
  lemma FirstIdRecycled(garbage: Chunk)
    requires |garbage| == ChunkSize
    ensures var (t1, a) := Create(Empty, garbage);
      0 <= a < Capacity(t1) && Get(t1, a).Some? &&
      var t2 := Destroy(t1, a);
      CanCreate(t2) &&
      var (t3, b) := Create(t2, garbage);
      a == 0 && b == a && Get(t3, a).Some?
  {
    var (t1, a) := Create(Empty, garbage);
    StaleIdAccepted(t1, a, garbage);
  }

}
