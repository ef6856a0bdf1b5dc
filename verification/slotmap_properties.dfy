/**
  Properties of the generation-checked slot map: the invariant every operation
  keeps, the create/get round trip, the generation check performed by get, and
  what destroy does and does not change.
 */
module SlotMapProperties {
  import opened Handles
  import opened Options
  import opened SlotMap

  /** No allocated slot disappears and no slot's generation goes down from `t` to `r`. */
  predicate GenerationsKept(t: Table, r: Table)
    requires WellFormed(t) && WellFormed(r)
  {
    && Capacity(t) <= Capacity(r)
    && forall i | 0 <= i < Capacity(t) ::
         Index(TagAt(r, i)) == Index(TagAt(t, i)) && Generation(TagAt(t, i)) <= Generation(TagAt(r, i))
  }

  lemma GenerationsKeptTransitive(a: Table, b: Table, c: Table)
    requires WellFormed(a) && WellFormed(b) && WellFormed(c)
    requires GenerationsKept(a, b) && GenerationsKept(b, c)
    ensures GenerationsKept(a, c)
  {
  }

  /** The empty table is valid. */
  lemma EmptyValid()
    ensures Valid(Empty)
  {
  }

  /** A new chunk tags each slot with its own index and pushes distinct indices. */
  lemma GrowPreservesValid(t: Table)
    requires Valid(t)
    requires Capacity(t) + ChunkSize <= IndexLimit
    ensures Valid(Grow(t))
  {
    var r := Grow(t);
    GrowTags(t);
    forall i | 0 <= i < Capacity(r)
      ensures SlotTagged(r, i)
    {
      if i < Capacity(t) {
        assert SlotTagged(t, i);
      }
    }
    forall a, b | 0 <= a < b < |r.freeList|
      ensures r.freeList[a] != r.freeList[b]
    {
      if b < |t.freeList| {
        assert r.freeList[a] == t.freeList[a] && r.freeList[b] == t.freeList[b];
      } else if a < |t.freeList| {
        assert r.freeList[a] == t.freeList[a];
      }
    }
  }

  /**
    Growth only appends: every slot allocated before `create_object` keeps its
    tag, and no chunk is allocated while the free list has an entry.
   */
  lemma CreateLeavesTags(t: Table)
    requires WellFormed(t) && CanCreate(t)
    ensures var r := Create(t).0;
      && (forall i | 0 <= i < Capacity(t) :: TagAt(r, i) == TagAt(t, i))
      && (forall i | Capacity(t) <= i < Capacity(r) :: TagAt(r, i) == Encode(i, 0))
      && (|t.freeList| > 0 <==> |r.chunks| == |t.chunks|)
      && (|t.freeList| == 0 <==> |r.chunks| == |t.chunks| + 1)
  {
    var r := Create(t).0;
    if |t.freeList| == 0 {
      GrowTags(t);
      assert r.chunks == Grow(t).chunks;
    }
  }

  /**
    `create_object` keeps the invariant, and the handle it returns is the
    current tag of a slot that is no longer free, so `get_object` on it yields
    that slot, whose `id` is the handle (the checks at lines 173 and 178).
   */
  lemma CreatePreservesValid(t: Table)
    requires Valid(t) && CanCreate(t)
    ensures var (r, h) := Create(t);
      && Valid(r)
      && Index(h) < Capacity(r)
      && TagAt(r, Index(h)) == h
      && Get(r, h) == Some(AddressOf(Index(h)))
      && Index(h) !in r.freeList
      && (|t.freeList| > 0 ==> Index(h) == Last(t.freeList))
      && (|t.freeList| == 0 ==> Index(h) == Capacity(t) && Generation(h) == 0)
  {
    var g := if |t.freeList| == 0 then Grow(t) else t;
    if |t.freeList| == 0 {
      GrowPreservesValid(t);
    }
    assert Valid(g);
    var (r, h) := Create(t);
    var free := Last(g.freeList);
    assert r.chunks == g.chunks && r.freeList == g.freeList[..|g.freeList| - 1];
    assert h == TagAt(g, free);
    assert SlotTagged(g, free);
    forall i | 0 <= i < Capacity(r)
      ensures SlotTagged(r, i)
    {
      assert SlotTagged(g, i);
    }
    assert Index(h) == free;
    assert free !in r.freeList by {
      forall k | 0 <= k < |r.freeList|
        ensures r.freeList[k] != free
      {
        assert g.freeList[k] != g.freeList[|g.freeList| - 1];
      }
    }
  }

  /**
    `get_object` is the generation check: on a valid table the tag at the
    handle's index already has that index, so the handle matches exactly when
    its generation equals the slot's stored generation.
   */
  lemma GetChecksGeneration(t: Table, h: int)
    requires Valid(t)
    requires Index(h) < Capacity(t)
    ensures Get(t, h).Some? <==> Generation(h) == Generation(TagAt(t, Index(h)))
  {
    assert SlotTagged(t, Index(h));
    HandleEquality(h, TagAt(t, Index(h)));
  }

  /**
    `destroy_object` of a handle whose slot is not on the free list keeps the
    invariant and puts the slot's index on the free list.
   */
  lemma DestroyPreservesValid(t: Table, h: int)
    requires Valid(t)
    requires Index(h) < Capacity(t)
    requires Get(t, h).Some?
    requires CanBump(h)
    requires Index(h) !in t.freeList
    ensures Valid(Destroy(t, h))
    ensures Index(h) in Destroy(t, h).freeList
  {
    var r := Destroy(t, h);
    forall i | 0 <= i < Capacity(r)
      ensures SlotTagged(r, i)
    {
      assert SlotTagged(t, i);
    }
    forall a, b | 0 <= a < b < |r.freeList|
      ensures r.freeList[a] != r.freeList[b]
    {
      if b < |t.freeList| {
        assert r.freeList[a] == t.freeList[a];
      } else {
        assert r.freeList[a] == t.freeList[a];
      }
    }
    assert r.freeList[|t.freeList|] == Index(h);
  }

  /** Neither operation lowers a generation: line 145 only ever adds one. */
  lemma CreateKeepsGenerations(t: Table)
    requires WellFormed(t) && CanCreate(t)
    ensures GenerationsKept(t, Create(t).0)
  {
    CreateLeavesTags(t);
  }

  lemma DestroyKeepsGenerations(t: Table, h: int)
    requires WellFormed(t)
    requires Index(h) < Capacity(t)
    requires Get(t, h).Some?
    requires CanBump(h)
    ensures GenerationsKept(t, Destroy(t, h))
    ensures Generation(TagAt(t, Index(h))) < Generation(TagAt(Destroy(t, h), Index(h)))
  {
  }

  /**
    Recycling after destroy (the scenario that defeats the earlier design):
    destroy followed by create reuses the same index, because the free list is
    LIFO, but issues a handle one generation later, and the destroyed handle
    is rejected while the new one is accepted.
   */
  lemma RecycleRejectsStale(t: Table, h: int)
    requires Valid(t)
    requires Index(h) < Capacity(t)
    requires Get(t, h).Some?
    requires CanBump(h)
    requires Index(h) !in t.freeList
    ensures var t1 := Destroy(t, h);
      CanCreate(t1) &&
      var (t2, h2) := Create(t1);
      && Index(h2) == Index(h)
      && Generation(h2) == Generation(h) + 1
      && h2 != h
      && Get(t2, h) == None
      && Get(t2, h2) == Some(AddressOf(Index(h)))
  {
    var t1 := Destroy(t, h);
    DestroyPreservesValid(t, h);
    CreatePreservesValid(t1);
    CreateLeavesTags(t1);
    var (t2, h2) := Create(t1);
    assert Last(t1.freeList) == Index(h);
    assert TagAt(t2, Index(h)) == TagAt(t1, Index(h));
  }

  /**
    `get_object` does not look at occupancy: the tag of a free slot is already
    the handle the slot will issue next, and `get_object` accepts it.
   */
  lemma GetIgnoresOccupancy(t: Table, k: nat)
    requires Valid(t)
    requires k < |t.freeList|
    ensures var i := t.freeList[k];
      Index(TagAt(t, i)) == i && Get(t, TagAt(t, i)) == Some(AddressOf(i))
  {
    assert SlotTagged(t, t.freeList[k]);
  }

  /**
    The double-free hazard: `destroy_object` on the tag of a free slot (a handle
    never issued, which `get_object` nevertheless accepts) pushes an index that
    is already on the free list.
   */
  lemma DestroyFreeSlotCorruptsFreeList(t: Table, k: nat)
    requires Valid(t)
    requires k < |t.freeList|
    requires CanBump(TagAt(t, t.freeList[k]))
    ensures var h := TagAt(t, t.freeList[k]);
      Index(h) < Capacity(t) && Get(t, h).Some? && !Distinct(Destroy(t, h).freeList)
  {
    var i := t.freeList[k];
    var h := TagAt(t, i);
    GetIgnoresOccupancy(t, k);
    var r := Destroy(t, h);
    assert r.freeList[k] == r.freeList[|t.freeList|];
  }

}
