/**
  The map-keyed object table (namespace `v1`): ids come from a counter that only
  goes up, objects live in an ordered map keyed by id.  It serves as the
  abstract reference for the slot map: a table of live objects, each of which
  knows its own id.
 */
module MapTable {
  import opened Options

  /** `v1::object`: an object that remembers its id. */
  datatype Object = Object(id: int)

  /** `next_id` and `object_table`. */
  datatype Table = Table(nextId: int, objects: map<int, Object>)

  const Empty: Table := Table(0, map[])

  /** 2^31 - 1: `next_id++` on an `int` is defined only below this. */
  const IntMax: int := 0x7FFF_FFFF

  /** Every stored object sits under its own id, and every id was handed out already. */
  predicate Valid(t: Table) {
    && 0 <= t.nextId
    && forall id | id in t.objects :: 0 <= id < t.nextId && t.objects[id] == Object(id)
  }

  /** `object_table.find(id)`, with the end iterator as `None`. */
  function Find(objects: map<int, Object>, id: int): (r: Option<Object>)
    ensures r.Some? <==> id in objects
    ensures r.Some? ==> r.value == objects[id]
  {
    if id in objects then Some(objects[id]) else None
  }

  /** `object_table.erase`: drop `id`, keep everything else. */
  function Erase(objects: map<int, Object>, id: int): (r: map<int, Object>)
    ensures r.Keys == objects.Keys - {id}
    ensures forall k | k in r :: r[k] == objects[k]
  {
    objects - {id}
  }

  /** `create_object` (lines 20-23): store a new object under `next_id`, return it, then bump the counter. */
  function Create(t: Table): (r: (Table, int))
    requires t.nextId < IntMax
    ensures r.1 == t.nextId && r.0.nextId == t.nextId + 1
    ensures r.0.objects.Keys == t.objects.Keys + {r.1}
    ensures r.0.objects[r.1] == Object(r.1)
    ensures forall k | k in t.objects && k != r.1 :: r.0.objects[k] == t.objects[k]
  {
    var id := t.nextId;
    (Table(id + 1, t.objects[id := Object(id)]), id)
  }

  /** `get_object` (lines 25-28). */
  function Get(t: Table, id: int): (r: Option<Object>)
    ensures r.Some? <==> id in t.objects
    ensures Valid(t) && r.Some? ==> r.value.id == id
  {
    Find(t.objects, id)
  }

  /** `destroy_object` (lines 30-34): erase the id if present; a missing id is ignored. */
  function Destroy(t: Table, id: int): (r: Table)
    ensures r.nextId == t.nextId
    ensures id !in t.objects ==> r == t
    ensures r.objects.Keys == t.objects.Keys - {id}
  {
    if id in t.objects then Table(t.nextId, Erase(t.objects, id)) else t
  }

  /**
    `create_object` keeps the table valid and hands out an id no live object
    has, and `get_object` on it finds an object carrying that id.
   */
  lemma CreatePreservesValid(t: Table)
    requires Valid(t)
    requires t.nextId < IntMax
    ensures var (r, id) := Create(t);
      Valid(r) && id !in t.objects && Get(r, id) == Some(Object(id))
  {
  }

  /** After `destroy_object`, `get_object` on that id finds nothing, and the table stays valid. */
  lemma DestroyThenGet(t: Table, id: int)
    requires Valid(t)
    ensures Valid(Destroy(t, id))
    ensures Get(Destroy(t, id), id) == None
  {
  }

  /** A call the caller makes on the v1 table. */
  datatype Call = CreateCall | DestroyCall(id: int)

  /**
    The table after the calls `calls`, in order, together with the ids the
    creates among them returned, in order.  The calls are bounded so that the
    counter cannot reach `IntMax`.
   */
  function Replay(t: Table, calls: seq<Call>): (r: (Table, seq<int>))
    requires Valid(t)
    requires t.nextId + |calls| <= IntMax
    ensures Valid(r.0)
    ensures |r.1| <= |calls|
    ensures r.0.nextId == t.nextId + |r.1|
    ensures forall k | 0 <= k < |r.1| :: t.nextId <= r.1[k] < r.0.nextId
    decreases |calls|
  {
    if |calls| == 0 then (t, [])
    else
      var (p, ids) := Replay(t, calls[..|calls| - 1]);
      match calls[|calls| - 1]
      case CreateCall =>
        CreatePreservesValid(p);
        var (q, id) := Create(p);
        (q, ids + [id])
      case DestroyCall(id) =>
        DestroyThenGet(p, id);
        (Destroy(p, id), ids)
  }

  predicate Increasing(ids: seq<int>) {
    forall a, b | 0 <= a < b < |ids| :: ids[a] < ids[b]
  }

  /**
    Ids are never reused: over any history of creates and destroys, the ids
    handed out increase strictly, so no two are equal, and none of them was
    the id of an object already in the table when the history began.
   */
  lemma {:induction false} IdsNeverReused(t: Table, calls: seq<Call>)
    requires Valid(t)
    requires t.nextId + |calls| <= IntMax
    ensures Increasing(Replay(t, calls).1)
    ensures forall k | 0 <= k < |Replay(t, calls).1| :: Replay(t, calls).1[k] !in t.objects
  {
    if |calls| > 0 {
      var prefix := calls[..|calls| - 1];
      IdsNeverReused(t, prefix);
      var p := Replay(t, prefix);
      var ids := Replay(t, calls).1;
      if calls[|calls| - 1] == CreateCall {
        assert ids == p.1 + [p.0.nextId];
        forall a, b | 0 <= a < b < |ids|
          ensures ids[a] < ids[b]
        {
          assert ids[a] == p.1[a] < p.0.nextId;
          if b < |p.1| {
            assert ids[b] == p.1[b];
          }
        }
      } else {
        assert ids == p.1;
      }
    }
  }

}
