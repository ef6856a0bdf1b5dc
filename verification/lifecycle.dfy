/**
  The slot map together with the handles its caller holds.  `live` are the
  handles `create_object` returned and `destroy_object` has not yet been given;
  `dead` are the handles already destroyed.  These sets are the caller's side
  of the protocol, not part of the table, and make it possible to state which
  handles `get_object` accepts.
 */
module Lifecycle {
  import opened Handles
  import opened Options
  import opened SlotMap
  import opened SlotMapProperties
  import MapTable

  datatype World = World(table: Table, live: set<int>, dead: set<int>)

  const Start: World := World(Empty, {}, {})

  /**
    The table is valid; every live handle is the current tag of its slot; a
    slot is on the free list exactly when its tag is not a live handle; and
    every destroyed handle is behind the current generation of its slot.
   */
  predicate Coherent(w: World) {
    && Valid(w.table)
    && (forall h | h in w.live :: Index(h) < Capacity(w.table) && TagAt(w.table, Index(h)) == h)
    && (forall i | 0 <= i < Capacity(w.table) :: i in w.table.freeList <==> TagAt(w.table, i) !in w.live)
    && (forall d | d in w.dead ::
          Index(d) < Capacity(w.table) && Generation(d) < Generation(TagAt(w.table, Index(d))))
  }

  lemma StartCoherent()
    ensures Coherent(Start)
  {
  }

  /** `create_object`, recording the returned handle as live. */
  function Create(w: World): (r: (World, int))
    requires Coherent(w)
    requires CanCreate(w.table)
    ensures r.0.table == SlotMap.Create(w.table).0
    ensures r.1 == SlotMap.Create(w.table).1
    ensures r.0.live == w.live + {r.1} && r.0.dead == w.dead
  {
    var (t, h) := SlotMap.Create(w.table);
    (World(t, w.live + {h}, w.dead), h)
  }

  /** `destroy_object` on a live handle, moving it from `live` to `dead`. */
  function Destroy(w: World, h: int): (r: World)
    requires Coherent(w)
    requires h in w.live
    requires CanBump(h)
    ensures Index(h) < Capacity(w.table) && Get(w.table, h).Some?
    ensures r.table == SlotMap.Destroy(w.table, h)
    ensures r.live == w.live - {h} && r.dead == w.dead + {h}
  {
    World(SlotMap.Destroy(w.table, h), w.live - {h}, w.dead + {h})
  }

  /** Distinct live handles occupy distinct slots. */
  lemma LiveHandlesDistinctSlots(w: World, a: int, b: int)
    requires Coherent(w)
    requires a in w.live && b in w.live && a != b
    ensures Index(a) != Index(b)
  {
  }

  /**
    Stale-handle detection on every handle ever issued: `get_object` accepts it
    exactly when it is live, whatever happened to its slot since.
   */
  lemma IssuedHandleValidity(w: World, h: int)
    requires Coherent(w)
    requires h in w.live || h in w.dead
    ensures Index(h) < Capacity(w.table)
    ensures Get(w.table, h).Some? <==> h in w.live
    ensures Get(w.table, h).Some? ==> Get(w.table, h).value == AddressOf(Index(h))
  {
    if h in w.dead {
      assert Generation(h) < Generation(TagAt(w.table, Index(h)));
    }
  }

  /** A free-list pop keeps the world coherent and issues a handle never issued before. */
  lemma CreateFromFreeList(w: World)
    requires Coherent(w)
    requires |w.table.freeList| > 0
    ensures var (r, h) := Create(w);
      && Coherent(r)
      && h !in w.live
      && h !in w.dead
  {
    var t := w.table;
    var (r, h) := Create(w);
    var t' := r.table;
    var i := Last(t.freeList);
    CreatePreservesValid(t);
    CreateLeavesTags(t);
    assert t'.chunks == t.chunks && t.freeList == t'.freeList + [i];
    assert Index(h) == i && h == TagAt(t, i);
    assert h !in w.live by {
      assert t.freeList[|t.freeList| - 1] == i;
    }
    assert h !in w.dead;
    forall j | 0 <= j < Capacity(t') && j != i
      ensures j in t'.freeList <==> TagAt(t', j) !in r.live
    {
      assert SlotTagged(t, j);
      assert TagAt(t', j) == TagAt(t, j) != h;
      assert j in t'.freeList <==> j in t.freeList;
    }
  }

  /** After growth and one pop, the free list holds exactly the other slots of the new chunk. */
  lemma FreeListAfterGrowth(t: Table)
    requires WellFormed(t)
    requires |t.freeList| == 0
    requires CanCreate(t)
    ensures forall j: int :: j in SlotMap.Create(t).0.freeList <==> Capacity(t) < j < Capacity(t) + ChunkSize
  {
    var fl := SlotMap.Create(t).0.freeList;
    var base := Capacity(t);
    assert fl == Descending(base + 1, ChunkSize - 1);
    assert |fl| == ChunkSize - 1;
    assert forall k | 0 <= k < |fl| :: fl[k] == base + ChunkSize - 1 - k;
    forall j: int | base < j < base + ChunkSize
      ensures j in fl
    {
      assert fl[base + ChunkSize - 1 - j] == j;
    }
  }

  /**
    The coherence argument for growth, stated over any table `t'` that has
    the old tags on the old slots (none of them free), generation-0 tags on
    the new chunk, the new chunk's other slots as its free list, and `h` as
    the first new slot's tag.
   */
  lemma GrownWorldCoherent(w: World, t': Table, h: int)
    requires Coherent(w)
    requires |w.table.freeList| == 0
    requires Valid(t')
    requires Capacity(t') == Capacity(w.table) + ChunkSize
    requires forall i | 0 <= i < Capacity(w.table) :: TagAt(t', i) == TagAt(w.table, i)
    requires forall i | Capacity(w.table) <= i < Capacity(t') :: TagAt(t', i) == Encode(i, 0)
    requires forall j: int :: j in t'.freeList <==> Capacity(w.table) < j < Capacity(t')
    requires h == TagAt(t', Capacity(w.table))
    ensures h !in w.live && h !in w.dead
    ensures Coherent(World(t', w.live + {h}, w.dead))
  {
    var t := w.table;
    var base := Capacity(t);
    var live' := w.live + {h};
    assert h == Encode(base, 0) == base;
    assert forall g | g in w.live :: Index(g) < base;
    forall g | g in live'
      ensures Index(g) < Capacity(t') && TagAt(t', Index(g)) == g
    {
    }
    forall j | 0 <= j < Capacity(t')
      ensures j in t'.freeList <==> TagAt(t', j) !in live'
    {
      if j < base {
        assert SlotTagged(t, j);
        assert TagAt(t', j) == TagAt(t, j);
      } else if j > base {
        assert TagAt(t', j) == Encode(j, 0) == j;
        assert Index(j) == j;
      }
    }
  }

  /** A create that allocates a chunk keeps the world coherent and issues a handle never issued before. */
  lemma CreateAfterGrowth(w: World)
    requires Coherent(w)
    requires |w.table.freeList| == 0
    requires CanCreate(w.table)
    ensures var (r, h) := Create(w);
      && Coherent(r)
      && h !in w.live
      && h !in w.dead
  {
    var (r, h) := Create(w);
    CreatePreservesValid(w.table);
    CreateLeavesTags(w.table);
    FreeListAfterGrowth(w.table);
    GrownWorldCoherent(w, r.table, h);
  }

  /**
    `create_object` keeps the world coherent and returns a handle never issued
    before, neither live nor destroyed, which `get_object` accepts.
   */
  lemma CreateKeepsCoherent(w: World)
    requires Coherent(w)
    requires CanCreate(w.table)
    ensures var (r, h) := Create(w);
      && Coherent(r)
      && h !in w.live
      && h !in w.dead
      && Get(r.table, h) == Some(AddressOf(Index(h)))
  {
    CreatePreservesValid(w.table);
    if |w.table.freeList| > 0 {
      CreateFromFreeList(w);
    } else {
      CreateAfterGrowth(w);
    }
  }

  /**
    `destroy_object` on a live handle keeps the world coherent; afterwards
    `get_object` rejects that handle (the checks at lines 191-194), and it keeps
    rejecting it through any later creates and destroys.
   */
  lemma DestroyKeepsCoherent(w: World, h: int)
    requires Coherent(w)
    requires h in w.live
    requires CanBump(h)
    ensures Coherent(Destroy(w, h))
    ensures Get(Destroy(w, h).table, h) == None
  {
    var t := w.table;
    var i := Index(h);
    assert i !in t.freeList;
    DestroyPreservesValid(t, h);
    var r := Destroy(w, h);
    var t' := r.table;
    forall g | g in r.live
      ensures Index(g) < Capacity(t') && TagAt(t', Index(g)) == g
    {
      assert Index(g) != i;
    }
    forall j | 0 <= j < Capacity(t')
      ensures j in t'.freeList <==> TagAt(t', j) !in r.live
    {
      if j == i {
        assert t'.freeList[|t.freeList|] == i;
      } else {
        assert SlotTagged(t, j);
        assert TagAt(t', j) == TagAt(t, j) != h;
        assert j in t'.freeList <==> j in t.freeList;
      }
    }
    forall d | d in r.dead
      ensures Index(d) < Capacity(t') && Generation(d) < Generation(TagAt(t', Index(d)))
    {
      if d != h && Index(d) != i {
        assert TagAt(t', Index(d)) == TagAt(t, Index(d));
      }
    }
  }

  /** The v1 view of a world: one object per live handle, carrying that handle as its id. */
  function Abstract(w: World): (m: map<int, MapTable.Object>)
    ensures m.Keys == w.live
    ensures forall h | h in m :: m[h].id == h
  {
    map h | h in w.live :: MapTable.Object(h)
  }

  /**
    Seen through `Abstract`, `create_object` inserts an object under a key that
    is not present, as the map-based table does with `next_id`.
   */
  lemma CreateRefinesInsert(w: World)
    requires Coherent(w)
    requires CanCreate(w.table)
    ensures var (r, h) := Create(w);
      h !in Abstract(w) && Abstract(r) == Abstract(w)[h := MapTable.Object(h)]
  {
    CreateKeepsCoherent(w);
  }

  /** Seen through `Abstract`, `destroy_object` is the map table's erase. */
  lemma DestroyRefinesErase(w: World, h: int)
    requires Coherent(w)
    requires h in w.live
    requires CanBump(h)
    ensures Abstract(Destroy(w, h)) == MapTable.Erase(Abstract(w), h)
  {
  }

  /**
    On issued handles `get_object` answers as the map table's lookup does on
    the abstract map, and the object found carries the handle as its id.
   */
  lemma GetRefinesFind(w: World, h: int)
    requires Coherent(w)
    requires h in w.live || h in w.dead
    ensures Index(h) < Capacity(w.table)
    ensures Get(w.table, h).Some? <==> MapTable.Find(Abstract(w), h).Some?
    ensures Get(w.table, h).Some? ==>
      && TagAt(w.table, Index(h)) == h
      && MapTable.Find(Abstract(w), h) == Some(MapTable.Object(h))
  {
    IssuedHandleValidity(w, h);
  }

}
