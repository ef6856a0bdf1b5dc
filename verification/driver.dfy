/**
  The rounds of the test driver (lines 158-201) as methods over a world: create
  a batch of objects, look each one up, destroy them all, look each one up
  again.  Indices freed in one round are reused by the next, so only the first
  round allocates chunks.
 */
module Driver {
  import opened Handles
  import opened Options
  import opened SlotMap
  import opened SlotMapProperties
  import opened Lifecycle

  /** Slots currently handed out: those not on the free list. */
  function Occupied(t: Table): int {
    Capacity(t) - |t.freeList|
  }

  function Elements(hs: seq<int>): (s: set<int>)
    ensures forall x :: x in s <==> x in hs
  {
    set x | x in hs
  }

  /** The index bits of each handle, in order. */
  function Indices(hs: seq<int>): (s: seq<int>)
    ensures |s| == |hs|
    ensures forall m | 0 <= m < |hs| :: s[m] == Index(hs[m])
  {
    seq(|hs|, m requires 0 <= m < |hs| => Index(hs[m]))
  }

  /** No slot's generation exceeds `g`. */
  predicate GenerationsAtMost(t: Table, g: int)
    requires WellFormed(t)
  {
    forall i | 0 <= i < Capacity(t) :: Generation(TagAt(t, i)) <= g
  }

  /**
    `r` is `t` after `k` calls of `create_object`: a chunk was allocated only
    once the free list had run dry, old slots keep their tags and new ones are
    at generation 0.
   */
  predicate TableGrownFrom(t: Table, r: Table, k: nat)
    requires WellFormed(t) && WellFormed(r)
  {
    && Occupied(r) == Occupied(t) + k
    && (k <= |t.freeList| ==> r.chunks == t.chunks && |r.freeList| == |t.freeList| - k)
    && (Capacity(r) > Capacity(t) ==> |r.freeList| < ChunkSize)
    && Capacity(t) <= Capacity(r)
    && (forall i | 0 <= i < Capacity(t) :: TagAt(r, i) == TagAt(t, i))
    && (forall i | Capacity(t) <= i < Capacity(r) :: Generation(TagAt(r, i)) == 0)
  }

  /** One more `create_object` on the table side of a batch. */
  lemma TableStep(t: Table, r: Table, k: nat)
    requires WellFormed(t) && WellFormed(r)
    requires TableGrownFrom(t, r, k)
    requires Occupied(r) < IndexLimit
    ensures CanCreate(r)
    ensures TableGrownFrom(t, SlotMap.Create(r).0, k + 1)
  {
    assert CanCreate(r) by {
      if |r.freeList| == 0 {
        assert |r.chunks| * 256 < 0x8000_0000;
        assert |r.chunks| < 0x80_0000;
      }
    }
    CreateLeavesTags(r);
    var r' := SlotMap.Create(r).0;
    assert |r.freeList| > 0 ==> Capacity(r') == Capacity(r) && |r'.freeList| == |r.freeList| - 1;
    assert |r.freeList| == 0 ==> |r'.freeList| == ChunkSize - 1;
    forall i | 0 <= i < Capacity(t)
      ensures TagAt(r', i) == TagAt(t, i)
    {
      assert TagAt(r', i) == TagAt(r, i);
    }
    forall i | Capacity(t) <= i < Capacity(r')
      ensures Generation(TagAt(r', i)) == 0
    {
      if i < Capacity(r) {
        assert TagAt(r', i) == TagAt(r, i);
      }
    }
  }

  /** `r` is `w` after creating the handles `hs`, in order: distinct, never issued before, now live. */
  predicate CreatedFrom(w: World, r: World, hs: seq<int>) {
    && Coherent(w)
    && Coherent(r)
    && Distinct(hs)
    && (forall m | 0 <= m < |hs| :: hs[m] !in w.live && hs[m] !in w.dead)
    && r.live == w.live + Elements(hs)
    && r.dead == w.dead
    && TableGrownFrom(w.table, r.table, |hs|)
  }

  /** Adding a fresh handle `h` to a batch, for any next state `r'` that records it as live. */
  lemma ExtendBatch(w: World, r: World, hs: seq<int>, r': World, h: int)
    requires CreatedFrom(w, r, hs)
    requires Coherent(r')
    requires h !in r.live && h !in r.dead
    requires r'.live == r.live + {h} && r'.dead == r.dead
    requires TableGrownFrom(w.table, r'.table, |hs| + 1)
    ensures CreatedFrom(w, r', hs + [h])
  {
    var hs' := hs + [h];
    assert Elements(hs') == Elements(hs) + {h};
    assert h !in Elements(hs);
    forall m | 0 <= m < |hs'|
      ensures hs'[m] !in w.live && hs'[m] !in w.dead
    {
      if m < |hs| {
        assert hs'[m] == hs[m];
      }
    }
  }

  /** One more `create_object` extends a batch. */
  lemma CreateStep(w: World, r: World, hs: seq<int>)
    requires CreatedFrom(w, r, hs)
    requires Occupied(r.table) < IndexLimit
    ensures CanCreate(r.table)
    ensures var (r', h) := Lifecycle.Create(r); CreatedFrom(w, r', hs + [h])
  {
    TableStep(w.table, r.table, |hs|);
    CreateKeepsCoherent(r);
    var (r', h) := Lifecycle.Create(r);
    ExtendBatch(w, r, hs, r', h);
  }

  /**
    `n` calls of `create_object` (lines 160-166).  A chunk is allocated only
    when the free list runs dry, so with `n` free indices none is, and after
    any growth fewer than a chunk's worth of slots are left free.
   */
  method CreateBatch(w: World, n: nat) returns (r: World, hs: seq<int>)
    requires Coherent(w)
    requires Occupied(w.table) + n <= IndexLimit
    ensures Coherent(r)
    ensures |hs| == n && Distinct(hs)
    ensures forall k | 0 <= k < n :: hs[k] !in w.live && hs[k] !in w.dead
    ensures r.live == w.live + Elements(hs)
    ensures r.dead == w.dead
    ensures Occupied(r.table) == Occupied(w.table) + n
    ensures n <= |w.table.freeList| ==> r.table.chunks == w.table.chunks
    ensures Capacity(r.table) > Capacity(w.table) ==> |r.table.freeList| < ChunkSize
    ensures Capacity(w.table) <= Capacity(r.table)
    ensures forall i | 0 <= i < Capacity(w.table) :: TagAt(r.table, i) == TagAt(w.table, i)
    ensures forall i | Capacity(w.table) <= i < Capacity(r.table) :: Generation(TagAt(r.table, i)) == 0
  {
    r := w;
    hs := [];
    assert Elements(hs) == {};
    while |hs| < n
      invariant |hs| <= n
      invariant CreatedFrom(w, r, hs)
    {
      CreateStep(w, r, hs);
      var step := Lifecycle.Create(r);
      r := step.0;
      hs := hs + [step.1];
    }
  }

  /**
    `r` is `w` after destroying the first `k` handles of `hs`: they moved from
    live to destroyed, their indices were pushed in order, their slots are one
    generation on and every other slot is untouched.
   */
  predicate DestroyedFrom(w: World, r: World, hs: seq<int>, k: nat)
    requires k <= |hs|
  {
    && Coherent(w)
    && Coherent(r)
    && r.live == w.live - Elements(hs[..k])
    && r.dead == w.dead + Elements(hs[..k])
    && r.table.freeList == w.table.freeList + Indices(hs[..k])
    && |r.table.chunks| == |w.table.chunks|
    && (forall m | 0 <= m < k :: Index(hs[m]) < Capacity(w.table) && TagAt(r.table, Index(hs[m])) == NextGeneration(hs[m]))
    && (forall i | 0 <= i < Capacity(w.table) && TagAt(w.table, i) !in Elements(hs[..k]) ::
          TagAt(r.table, i) == TagAt(w.table, i))
  }

  /** Destroying the next handle of the batch. */
  lemma DestroyStep(w: World, r: World, hs: seq<int>, k: nat)
    requires Distinct(hs)
    requires forall m | 0 <= m < |hs| :: hs[m] in w.live && CanBump(hs[m])
    requires k < |hs|
    requires DestroyedFrom(w, r, hs, k)
    ensures hs[k] in r.live
    ensures DestroyedFrom(w, Lifecycle.Destroy(r, hs[k]), hs, k + 1)
  {
    var h := hs[k];
    assert hs[..k + 1] == hs[..k] + [h];
    assert Elements(hs[..k + 1]) == Elements(hs[..k]) + {h};
    assert Indices(hs[..k + 1]) == Indices(hs[..k]) + [Index(h)];
    assert h in r.live by {
      forall m | 0 <= m < k ensures hs[..k][m] != h { }
    }
    assert TagAt(r.table, Index(h)) == h == TagAt(w.table, Index(h));
    DestroyKeepsCoherent(r, h);
    var r' := Lifecycle.Destroy(r, h);
    HandleEquality(TagAt(r'.table, Index(h)), NextGeneration(h));
    forall m | 0 <= m < k
      ensures TagAt(r'.table, Index(hs[m])) == NextGeneration(hs[m])
    {
      LiveHandlesDistinctSlots(w, hs[m], h);
    }
    forall i | 0 <= i < Capacity(w.table) && TagAt(w.table, i) !in Elements(hs[..k + 1])
      ensures TagAt(r'.table, i) == TagAt(w.table, i)
    {
      assert i != Index(h);
    }
  }

  /**
    `destroy_object` on each handle of a batch (lines 181-187): every handle
    moves from live to destroyed, its index is pushed, in the order of the
    batch, and its slot's generation goes up by exactly one; no other slot
    changes.
   */
  method DestroyBatch(w: World, hs: seq<int>) returns (r: World)
    requires Coherent(w)
    requires Distinct(hs)
    requires forall k | 0 <= k < |hs| :: hs[k] in w.live && CanBump(hs[k])
    ensures Coherent(r)
    ensures r.live == w.live - Elements(hs)
    ensures r.dead == w.dead + Elements(hs)
    ensures Capacity(r.table) == Capacity(w.table)
    ensures r.table.freeList == w.table.freeList + Indices(hs)
    ensures forall k | 0 <= k < |hs| :: TagAt(r.table, Index(hs[k])) == NextGeneration(hs[k])
    ensures forall i | 0 <= i < Capacity(w.table) && TagAt(w.table, i) !in Elements(hs) ::
      TagAt(r.table, i) == TagAt(w.table, i)
  {
    r := w;
    var k := 0;
    assert Elements(hs[..0]) == {};
    while k < |hs|
      invariant 0 <= k <= |hs|
      invariant DestroyedFrom(w, r, hs, k)
    {
      DestroyStep(w, r, hs, k);
      r := Lifecycle.Destroy(r, hs[k]);
      k := k + 1;
    }
    assert hs[..k] == hs;
  }

  /** Creating objects allocates only generation-0 slots and leaves the others alone, so a bound on generations survives. */
  lemma BoundSurvivesCreates(t: Table, r: Table, bound: int)
    requires WellFormed(t) && WellFormed(r)
    requires 0 <= bound
    requires GenerationsAtMost(t, bound)
    requires Capacity(t) <= Capacity(r)
    requires forall i | 0 <= i < Capacity(t) :: TagAt(r, i) == TagAt(t, i)
    requires forall i | Capacity(t) <= i < Capacity(r) :: Generation(TagAt(r, i)) == 0
    ensures GenerationsAtMost(r, bound)
  {
    forall i | 0 <= i < Capacity(r)
      ensures Generation(TagAt(r, i)) <= bound
    {
      if i < Capacity(t) {
        assert TagAt(r, i) == TagAt(t, i);
      }
    }
  }

  /** Destroying each slot at most once raises the bound on generations by at most one. */
  lemma BoundAfterDestroys(t: Table, r: Table, hs: seq<int>, bound: int)
    requires Valid(t) && WellFormed(r)
    requires GenerationsAtMost(t, bound)
    requires Capacity(t) == Capacity(r)
    requires forall k | 0 <= k < |hs| ::
      Index(hs[k]) < Capacity(t) && TagAt(t, Index(hs[k])) == hs[k] && TagAt(r, Index(hs[k])) == NextGeneration(hs[k])
    requires forall i | 0 <= i < Capacity(t) && TagAt(t, i) !in Elements(hs) :: TagAt(r, i) == TagAt(t, i)
    ensures GenerationsAtMost(r, bound + 1)
  {
    forall i | 0 <= i < Capacity(r)
      ensures Generation(TagAt(r, i)) <= bound + 1
    {
      assert Generation(TagAt(t, i)) <= bound;
      if TagAt(t, i) in Elements(hs) {
        var k :| 0 <= k < |hs| && hs[k] == TagAt(t, i);
        assert SlotTagged(t, i);
      }
    }
  }

  /** A live handle is its slot's tag, so a bound on the table's generations lets it be destroyed. */
  lemma LiveCanBump(w: World, h: int, bound: int)
    requires Coherent(w)
    requires h in w.live
    requires GenerationsAtMost(w.table, bound)
    requires bound + 1 < GenerationLimit
    ensures CanBump(h)
  {
    assert SlotTagged(w.table, Index(h));
  }

  /**
    One round of the driver: create `n` objects, check that `get_object` finds
    each at its own slot, destroy them all, check that `get_object` now rejects
    each of them.  `created` is the world between the creates and the
    destroys, where the first checks run.  Only a round that finds fewer than
    `n` free indices allocates chunks, and then no more than it needs.
   */
  method Round(w: World, n: nat, bound: nat) returns (created: World, r: World, hs: seq<int>)
    requires Coherent(w)
    requires w.live == {}
    requires Occupied(w.table) + n <= IndexLimit
    requires GenerationsAtMost(w.table, bound)
    requires bound + 1 < GenerationLimit
    ensures |hs| == n
    ensures Coherent(created) && created.live == Elements(hs)
    ensures forall k | 0 <= k < n ::
      && Index(hs[k]) < Capacity(created.table)
      && Get(created.table, hs[k]) == Some(AddressOf(Index(hs[k])))
      && TagAt(created.table, Index(hs[k])) == hs[k]
    ensures Coherent(r)
    ensures r.live == {}
    ensures forall k | 0 <= k < n :: hs[k] in r.dead && Get(r.table, hs[k]) == None
    ensures Occupied(r.table) == Occupied(w.table)
    ensures n <= |w.table.freeList| ==> |r.table.chunks| == |w.table.chunks|
    ensures Occupied(w.table) + n <= Capacity(r.table)
    ensures Capacity(r.table) > Capacity(w.table) ==> Capacity(r.table) < Occupied(w.table) + n + ChunkSize
    ensures GenerationsAtMost(r.table, bound + 1)
  {
    created, hs := CreateBatch(w, n);
    BoundSurvivesCreates(w.table, created.table, bound);
    forall k | 0 <= k < n
      ensures Index(hs[k]) < Capacity(created.table)
      ensures Get(created.table, hs[k]) == Some(AddressOf(Index(hs[k])))
    {
      IssuedHandleValidity(created, hs[k]);
    }
    forall k | 0 <= k < n
      ensures hs[k] in created.live && CanBump(hs[k])
    {
      LiveCanBump(created, hs[k], bound);
    }
    r := DestroyBatch(created, hs);
    BoundAfterDestroys(created.table, r.table, hs, bound);
    forall k | 0 <= k < n
      ensures hs[k] in r.dead && Get(r.table, hs[k]) == None
    {
      IssuedHandleValidity(r, hs[k]);
    }
  }

  /**
    The whole driver (lines 158-201): `rounds` rounds of `n` objects each on a
    fresh table.  Every call meets its precondition, so each round's lookups
    answer as `Round` states, chunks are allocated in the first round only and no
    more of them than `n` objects need, and at the end every slot is free.
   */
  method Run(rounds: nat, n: nat) returns (w: World)
    requires rounds + 1 < GenerationLimit
    requires n <= IndexLimit
    ensures Coherent(w)
    ensures w.live == {}
    ensures |w.table.freeList| == Capacity(w.table)
    ensures rounds == 0 ==> Capacity(w.table) == 0
    ensures rounds > 0 ==> n <= Capacity(w.table) < n + ChunkSize
  {
    w := Start;
    StartCoherent();
    var j := 0;
    while j < rounds
      invariant j <= rounds
      invariant Coherent(w)
      invariant w.live == {}
      invariant Occupied(w.table) == 0
      invariant GenerationsAtMost(w.table, j)
      invariant j == 0 ==> Capacity(w.table) == 0
      invariant j > 0 ==> n <= Capacity(w.table) < n + ChunkSize
    {
      var created, hs;
      created, w, hs := Round(w, n, j);
      j := j + 1;
    }
  }

}
