/**
  The generation-checked slot map (namespace `v4`): a table of fixed-size chunks
  of slots, each slot holding a 64-bit tag, and a LIFO free list of slot
  indices.  The process-wide globals `object_table` and `free_list` become one
  explicit `Table` value, and every operation is a state transition on it.

  A slot's tag is written when its chunk is allocated (generation 0) and when
  the slot is destroyed (generation + 1), never by `create`.  A free slot's tag
  therefore already equals the handle it will hand out next.
 */
module SlotMap {
  import opened Handles
  import opened Options

  /** One `new object[chunk_size]`, seen through the `id` field of its objects. */
  type Chunk = seq<int>

  /** `object_table` and `free_list`; the top of the free list is its last element. */
  datatype Table = Table(chunks: seq<Chunk>, freeList: seq<int>)

  /** The object `object_table[chunk] + offset`: an address that growth never moves. */
  datatype Address = Address(chunk: nat, offset: nat)

  /** The state before the first `create_object`. */
  const Empty: Table := Table([], [])

  /** Number of slots held by the allocated chunks. */
  function Capacity(t: Table): nat {
    |t.chunks| * ChunkSize
  }

  /** Where slot `i` lives: chunk `i / chunk_size`, offset `i % chunk_size`. */
  function AddressOf(i: nat): (a: Address)
    ensures a.offset < ChunkSize
    ensures a.chunk * ChunkSize + a.offset == i
  {
    Address(i / ChunkSize, i % ChunkSize)
  }

  lemma AddressInjective(i: nat, j: nat)
    ensures AddressOf(i) == AddressOf(j) ==> i == j
  {
  }

  function Last(s: seq<int>): int
    requires |s| > 0
  {
    s[|s| - 1]
  }

  predicate Distinct(s: seq<int>) {
    forall a, b | 0 <= a < b < |s| :: s[a] != s[b]
  }

  /**
    What the code needs to be defined at all: every chunk holds `chunk_size`
    slots, every free-list entry addresses an allocated slot, and every index
    fits the `int` free list.
   */
  predicate WellFormed(t: Table) {
    && (forall k | 0 <= k < |t.chunks| :: |t.chunks[k]| == ChunkSize)
    && (forall k | 0 <= k < |t.freeList| :: 0 <= t.freeList[k] < Capacity(t))
    && Capacity(t) <= IndexLimit
  }

  /** The tag stored in slot `i`. */
  function TagAt(t: Table, i: nat): int
    requires WellFormed(t)
    requires i < Capacity(t)
  {
    var a := AddressOf(i);
    t.chunks[a.chunk][a.offset]
  }

  /** Slot `i` carries its own position in the index bits of a representable tag. */
  predicate SlotTagged(t: Table, i: nat)
    requires WellFormed(t)
    requires i < Capacity(t)
  {
    0 <= TagAt(t, i) < HandleLimit && Index(TagAt(t, i)) == i
  }

  /**
    The table invariant: every allocated slot's tag has index bits equal to its
    position, and free-list entries are pairwise distinct.
   */
  predicate Valid(t: Table) {
    && WellFormed(t)
    && (forall i | 0 <= i < Capacity(t) :: SlotTagged(t, i))
    && Distinct(t.freeList)
  }

  /** The tags of a freshly allocated chunk: slot `base + k` at generation 0. */
  function FreshChunk(base: nat): (c: Chunk)
    ensures |c| == ChunkSize
    ensures forall k | 0 <= k < ChunkSize :: c[k] == base + k
  {
    seq(ChunkSize, k => base + k)
  }

  /** `base + n - 1`, ..., `base + 1`, `base`: the order growth pushes new indices in. */
  function Descending(base: nat, n: nat): (s: seq<int>)
    ensures |s| == n
    ensures forall k | 0 <= k < n :: s[k] == base + n - 1 - k
  {
    seq(n, k => base + n - 1 - k)
  }

  /** Popping the lowest entry of a descending run leaves the run one above it. */
  lemma DescendingPop(base: nat, n: nat)
    ensures Descending(base, n + 1)[..n] == Descending(base + 1, n)
  {
  }

  /** Appending chunks leaves the tags of the slots already allocated untouched. */
  lemma PrefixTags(t: Table, r: Table)
    requires WellFormed(t) && WellFormed(r)
    requires |t.chunks| <= |r.chunks| && r.chunks[..|t.chunks|] == t.chunks
    ensures forall i | 0 <= i < Capacity(t) :: TagAt(r, i) == TagAt(t, i)
  {
    forall i | 0 <= i < Capacity(t)
      ensures TagAt(r, i) == TagAt(t, i)
    {
      assert AddressOf(i).chunk < |t.chunks|;
      assert r.chunks[AddressOf(i).chunk] == t.chunks[AddressOf(i).chunk];
    }
  }

  /** Growth (lines 124-131): append one chunk and push its indices, highest first. */
  function Grow(t: Table): (r: Table)
    requires WellFormed(t)
    requires Capacity(t) + ChunkSize <= IndexLimit
    ensures WellFormed(r)
    ensures Capacity(r) == Capacity(t) + ChunkSize
    ensures r.chunks[..|t.chunks|] == t.chunks
    ensures r.freeList == t.freeList + Descending(Capacity(t), ChunkSize)
    ensures Last(r.freeList) == Capacity(t)
  {
    var base := Capacity(t);
    Table(t.chunks + [FreshChunk(base)], t.freeList + Descending(base, ChunkSize))
  }

  /** Growth keeps every existing slot's tag and gives each new slot generation 0, i.e. its own index as tag. */
  lemma GrowTags(t: Table)
    requires WellFormed(t)
    requires Capacity(t) + ChunkSize <= IndexLimit
    ensures forall i | 0 <= i < Capacity(t) :: TagAt(Grow(t), i) == TagAt(t, i)
    ensures forall i | Capacity(t) <= i < Capacity(Grow(t)) :: TagAt(Grow(t), i) == Encode(i, 0)
  {
    var r := Grow(t);
    PrefixTags(t, r);
    forall i | Capacity(t) <= i < Capacity(r)
      ensures TagAt(r, i) == Encode(i, 0)
    {
      assert AddressOf(i).chunk == |t.chunks|;
    }
  }

  /**
    The growth loop as written (lines 125-130): walk the new chunk from its last
    slot down, stamping each slot with its index and pushing that index.
   */
  method GrowChunk(t: Table) returns (r: Table)
    requires WellFormed(t)
    requires Capacity(t) + ChunkSize <= IndexLimit
    ensures r == Grow(t)
  {
    var base := |t.chunks| * ChunkSize;
    var chunk: Chunk := seq(ChunkSize, _ => 0);
    var freeList := t.freeList;
    var i: int := ChunkSize as int - 1;
    while i >= 0
      invariant -1 <= i < ChunkSize as int
      invariant |chunk| == ChunkSize
      invariant forall k | i < k < ChunkSize as int :: chunk[k] == base + k
      invariant freeList == t.freeList + Descending(base + i + 1, ChunkSize - 1 - i)
    {
      chunk := chunk[i := base + i];
      freeList := freeList + [base + i];
      i := i - 1;
    }
    assert chunk == FreshChunk(base);
    r := Table(t.chunks + [chunk], freeList);
  }

  /** Whether `create_object` can run without pushing an index that does not fit an `int`. */
  predicate CanCreate(t: Table) {
    |t.freeList| > 0 || Capacity(t) + ChunkSize <= IndexLimit
  }

  /**
    `create_object` (lines 123-136): grow if the free list is empty, pop the top
    index and return the tag its slot already carries.
   */
  function Create(t: Table): (r: (Table, int))
    requires WellFormed(t)
    requires CanCreate(t)
    ensures WellFormed(r.0)
    ensures |t.freeList| > 0 ==>
      && r.0.chunks == t.chunks
      && r.0.freeList + [Last(t.freeList)] == t.freeList
      && r.1 == TagAt(t, Last(t.freeList))
    ensures |t.freeList| == 0 ==>
      && Capacity(r.0) == Capacity(t) + ChunkSize
      && r.0.chunks[..|t.chunks|] == t.chunks
      && r.0.freeList == Descending(Capacity(t) + 1, ChunkSize - 1)
      && r.1 == Encode(Capacity(t), 0)
  {
    if |t.freeList| == 0 then
      var g := Grow(t);
      GrowTags(t);
      DescendingPop(Capacity(t), ChunkSize - 1);
      (Table(g.chunks, g.freeList[..|g.freeList| - 1]), TagAt(g, Last(g.freeList)))
    else
      (Table(t.chunks, t.freeList[..|t.freeList| - 1]), TagAt(t, Last(t.freeList)))
  }

  /**
    `get_object` (lines 138-141): the slot the handle's index bits name, if its
    tag equals the whole handle.  The source does not check the index against
    the allocated chunks, so the caller must.
   */
  function Get(t: Table, h: int): (r: Option<Address>)
    requires WellFormed(t)
    requires Index(h) < Capacity(t)
    ensures r.Some? <==> TagAt(t, Index(h)) == h
    ensures r.Some? ==> r.value == AddressOf(Index(h))
  {
    var a := AddressOf(Index(h));
    if t.chunks[a.chunk][a.offset] != h then None else Some(a)
  }

  /** Overwrite the tag of slot `i`, leaving every other slot and the free list alone. */
  function SetTag(t: Table, i: nat, tag: int): (r: Table)
    requires WellFormed(t)
    requires i < Capacity(t)
    ensures WellFormed(r)
    ensures r.freeList == t.freeList && |r.chunks| == |t.chunks|
    ensures TagAt(r, i) == tag
    ensures forall j | 0 <= j < Capacity(t) && j != i :: TagAt(r, j) == TagAt(t, j)
  {
    var a := AddressOf(i);
    var r := Table(t.chunks[a.chunk := t.chunks[a.chunk][a.offset := tag]], t.freeList);
    assert forall j | 0 <= j < Capacity(t) && j != i :: TagAt(r, j) == TagAt(t, j) by {
      forall j | 0 <= j < Capacity(t) && j != i ensures TagAt(r, j) == TagAt(t, j) {
        AddressInjective(i, j);
      }
    }
    r
  }

  /** Whether the generation bump of line 145 stays within a signed 64-bit value. */
  predicate CanBump(h: int) {
    0 <= Generation(h) && Generation(h) + 1 < GenerationLimit
  }

  /**
    `destroy_object` (lines 143-147): advance the slot's generation, keeping its
    index bits, and push the index.  The source dereferences the result of
    `get_object` unchecked, so the handle must be current.
   */
  function Destroy(t: Table, h: int): (r: Table)
    requires WellFormed(t)
    requires Index(h) < Capacity(t)
    requires Get(t, h).Some?
    requires CanBump(h)
    ensures WellFormed(r)
    ensures r.freeList == t.freeList + [Index(h)]
    ensures |r.chunks| == |t.chunks|
    ensures Index(TagAt(r, Index(h))) == Index(h)
    ensures Generation(TagAt(r, Index(h))) == Generation(h) + 1
    ensures forall j | 0 <= j < Capacity(t) && j != Index(h) :: TagAt(r, j) == TagAt(t, j)
    ensures Get(r, h) == None
  {
    var i := Index(h);
    var s := SetTag(t, i, NextGeneration(TagAt(t, i)));
    Table(s.chunks, s.freeList + [i])
  }

}
