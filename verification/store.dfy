/** The line store of the canvas: the dictionary of lines by id, the id
    counter, and the spatial tree that indexes the lines' boxes. Creation
    appends the next id; undo removes the most recent one. */
module LineStore {
  import opened Geometry
  import opened Wrappers
  import opened SpatialIndex

  /** A committed stroke segment, its cached box and its leaf in the tree. */
  datatype Line = Line(id: int, a: Vec2, b: Vec2, radius: real, aabb: Rect, leaf: Handle)

  datatype Store = Store(lines: map<int, Line>, nextId: int, tree: Tree)

  const Empty: Store := Store(map[], 0, SpatialIndex.Empty)

  /** The store invariant: the keys are exactly 0 .. nextId-1, every line sits
      under its own id with its box computed from its geometry, and the live
      leaves of the tree are exactly the lines' leaves, each carrying the
      line's box and id. */
  ghost predicate Valid(s: Store) {
    && s.nextId >= 0
    && Wf(s.tree)
    && (forall k :: k in s.lines <==> 0 <= k < s.nextId)
    && (forall k :: k in s.lines ==> s.lines[k].id == k)
    && (forall k :: k in s.lines ==>
          s.lines[k].aabb == ComputeAABB(s.lines[k].a, s.lines[k].b, s.lines[k].radius))
    && (forall k :: k in s.lines ==>
          && s.lines[k].leaf in s.tree.leaves
          && s.tree.leaves[s.lines[k].leaf] == Leaf(s.lines[k].aabb, k))
    && (forall h :: h in s.tree.leaves ==>
          && s.tree.leaves[h].id in s.lines
          && s.lines[s.tree.leaves[h].id].leaf == h)
  }

  /** Builds the line, inserts its box into the tree, records the handle on
      the line and adds the line to the dictionary under id; a key already
      present is the dictionary's duplicate-key exception. */
  function CreateLine(s: Store, id: int, a: Vec2, b: Vec2, radius: real): (r: Result<Store>)
    ensures r.Success? <==> id !in s.lines
    ensures r.Failure? ==> r.fault == DuplicateKey(id)
    ensures r.Success? ==> r.value.nextId == s.nextId
    ensures r.Success? ==> r.value.lines.Keys == s.lines.Keys + {id}
    ensures r.Success? ==> forall k :: k in s.lines ==> r.value.lines[k] == s.lines[k]
    ensures r.Success? ==> var l := r.value.lines[id];
      && l.id == id && l.a == a && l.b == b && l.radius == radius
      && l.aabb == ComputeAABB(a, b, radius)
      && r.value.tree.leaves == s.tree.leaves[l.leaf := Leaf(l.aabb, id)]
    ensures r.Success? && Wf(s.tree) ==> r.value.lines[id].leaf !in s.tree.leaves && Wf(r.value.tree)
  {
    var box := ComputeAABB(a, b, radius);
    var added := Add(s.tree, box, id);
    var l := Line(id, a, b, radius, box, added.handle);
    if id in s.lines then Failure(DuplicateKey(id))
    else Success(Store(s.lines[id := l], s.nextId, added.tree))
  }

  /** One segment committed by the update loop: the line gets the current
      counter as its id and the counter moves on by one. */
  function Emit(s: Store, a: Vec2, b: Vec2, radius: real): (r: Result<Store>)
    ensures r.Success? <==> s.nextId !in s.lines
    ensures r.Success? ==> r.value.nextId == s.nextId + 1
    ensures r.Success? ==> s.nextId in r.value.lines
    ensures r.Success? ==> r.value.lines == s.lines[s.nextId := r.value.lines[s.nextId]]
    ensures r.Success? ==> var l := r.value.lines[s.nextId];
      l.id == s.nextId && l.a == a && l.b == b && l.radius == radius
  {
    var id := s.nextId;
    CreateLine(s.(nextId := id + 1), id, a, b, radius)
  }

  /** On a valid store a committed segment never hits a duplicate key: it
      lands under the old counter, with the requested geometry and a fresh
      leaf, the count grows by one and the invariant is kept. */
  lemma EmitStep(s: Store, a: Vec2, b: Vec2, radius: real)
    requires Valid(s)
    ensures var r := Emit(s, a, b, radius);
      && r.Success? && Valid(r.value)
      && r.value.nextId == s.nextId + 1
      && r.value.lines == s.lines[s.nextId := r.value.lines[s.nextId]]
      && r.value.lines[s.nextId].a == a && r.value.lines[s.nextId].b == b
      && r.value.lines[s.nextId].radius == radius
      && r.value.lines[s.nextId].leaf !in s.tree.leaves
      && r.value.tree.leaves == s.tree.leaves[r.value.lines[s.nextId].leaf := Leaf(ComputeAABB(a, b, radius), s.nextId)]
      && |r.value.lines| == |s.lines| + 1
  {
    var id := s.nextId;
    assert id !in s.lines;
    var s' := Emit(s, a, b, radius).value;
    assert s'.lines == s.lines[id := s'.lines[id]];
    var l := s'.lines[id];
    assert l.leaf == s.tree.next;
    forall h | h in s'.tree.leaves
      ensures s'.tree.leaves[h].id in s'.lines && s'.lines[s'.tree.leaves[h].id].leaf == h
    {
      if h != l.leaf {
        assert s'.tree.leaves[h] == s.tree.leaves[h];
      }
    }
  }

  /** The undo control: with no lines it does nothing; otherwise it steps the
      counter back, looks the line up under the new counter, drops it from
      the dictionary and removes its leaf from the tree. A missing key or a
      dead leaf is the runtime's exception. */
  function Undo(s: Store): (r: Result<Store>)
    ensures |s.lines| == 0 ==> r == Success(s)
    ensures |s.lines| > 0 && r.Success? ==>
      && s.nextId - 1 in s.lines
      && r.value.nextId == s.nextId - 1
      && r.value.lines == s.lines - {s.nextId - 1}
      && r.value.tree.next == s.tree.next
      && r.value.tree.leaves == s.tree.leaves - {s.lines[s.nextId - 1].leaf}
  {
    if |s.lines| == 0 then Success(s)
    else
      var id := s.nextId - 1;
      if id !in s.lines then Failure(KeyNotFound(id))
      else
        var l := s.lines[id];
        var tree :- Remove(s.tree, l.leaf);
        Success(Store(s.lines - {id}, id, tree))
  }

  /** On a valid store undo never faults and keeps the invariant; when there
      is a line it removes exactly the entry with the highest id and that
      line's leaf, and steps the counter back by one. */
  lemma UndoStep(s: Store)
    requires Valid(s)
    ensures Undo(s).Success? && Valid(Undo(s).value)
    ensures |s.lines| > 0 ==>
      var r := Undo(s).value;
      && s.nextId - 1 in s.lines
      && (forall k :: k in s.lines ==> k <= s.nextId - 1)
      && r.nextId == s.nextId - 1
      && r.lines == s.lines - {s.nextId - 1}
      && r.tree.leaves == s.tree.leaves - {s.lines[s.nextId - 1].leaf}
      && |r.lines| == |s.lines| - 1
  {
    if |s.lines| > 0 {
      if s.nextId <= 0 {
        assert forall k :: k !in s.lines.Keys;
        assert false;
      }
      var top := s.nextId - 1;
      assert top in s.lines;
      assert s.lines[top].leaf in s.tree.leaves;
      var s' := Undo(s).value;
      forall k | k in s'.lines
        ensures s'.lines[k].leaf in s'.tree.leaves
      {
        assert s.tree.leaves[s.lines[k].leaf].id == k;
      }
      forall h | h in s'.tree.leaves
        ensures s'.tree.leaves[h].id in s'.lines
      {
        assert s.lines[s.tree.leaves[h].id].leaf == h;
      }
    }
  }

  /** The empty store the game starts with satisfies the invariant. */
  lemma EmptyValid()
    ensures Valid(Empty)
  {
  }

  /** The dictionary's count equals the counter: ids are dense. */
  lemma CountIsNextId(s: Store)
    requires Valid(s)
    ensures |s.lines| == s.nextId
  {
    assert s.lines.Keys == Range(s.nextId);
    RangeSize(s.nextId);
  }

  /** The ids 0 .. n-1. */
  function Range(n: nat): (r: set<int>)
    ensures forall k :: k in r <==> 0 <= k < n
  {
    if n == 0 then {} else Range(n - 1) + {n - 1}
  }

  lemma {:induction false} RangeSize(n: nat)
    ensures |Range(n)| == n
  {
    if n > 0 {
      RangeSize(n - 1);
    }
  }

  /** Create followed by undo restores the counter, the dictionary and the
      tree's live leaves, and the next creation reuses the same id. */
  lemma CreateUndoRoundTrip(s: Store, a: Vec2, b: Vec2, radius: real, a': Vec2, b': Vec2, radius': real)
    requires Valid(s)
    ensures var created := Emit(s, a, b, radius).value;
      var undone := Undo(created);
      && undone.Success?
      && undone.value.nextId == s.nextId
      && undone.value.lines == s.lines
      && undone.value.tree.leaves == s.tree.leaves
      && var again := Emit(undone.value, a', b', radius');
         again.Success? && again.value.lines[s.nextId].id == s.nextId
  {
    EmitStep(s, a, b, radius);
    var created := Emit(s, a, b, radius).value;
    UndoStep(created);
    var undone := Undo(created).value;
    assert undone.lines == s.lines;
    EmitStep(undone, a', b', radius');
  }

  /** Every id the tree reports names a stored line whose box is the one
      the tree reported against. */
  lemma QueryInStore(s: Store, q: Rect)
    requires Valid(s)
    ensures forall id :: id in QueryIds(s.tree, q) <==> id in s.lines && Overlaps(s.lines[id].aabb, q)
  {
    forall id ensures id in QueryIds(s.tree, q) <==> id in s.lines && Overlaps(s.lines[id].aabb, q) {
      if id in s.lines && Overlaps(s.lines[id].aabb, q) {
        assert s.lines[id].leaf in Hits(s.tree, q);
      }
    }
  }

  /** In the state right after an undo, no query reports the undone id. */
  lemma UndoneNeverReported(s: Store, q: Rect)
    requires Valid(s) && |s.lines| > 0
    ensures Undo(s).Success?
    ensures s.nextId - 1 !in QueryIds(Undo(s).value.tree, q)
  {
    UndoStep(s);
    QueryInStore(Undo(s).value, q);
  }
}
