/** The dynamic AABB tree, seen only through its interface: it stores
    (box, payload id) leaves under handles it hands out, removes a leaf by
    handle, and reports the payloads of the leaves whose boxes overlap a
    query rectangle. The balancing and node layout of the library are not
    part of this model. */
module SpatialIndex {
  import opened Geometry
  import opened Wrappers

  type Handle = nat

  datatype Leaf = Leaf(box: Rect, id: int)

  /** The live leaves by handle, and the first handle never yet handed out. */
  datatype Tree = Tree(leaves: map<Handle, Leaf>, next: Handle)

  const Empty: Tree := Tree(map[], 0)

  /** Every live handle was handed out before. */
  predicate Wf(t: Tree) {
    forall h :: h in t.leaves ==> h < t.next
  }

  datatype Added = Added(handle: Handle, tree: Tree)

  /** Inserts a leaf under a handle that is not live. */
  function Add(t: Tree, box: Rect, id: int): (r: Added)
    ensures Wf(t) ==> r.handle !in t.leaves && Wf(r.tree)
    ensures r.handle in r.tree.leaves && r.tree.leaves[r.handle] == Leaf(box, id)
    ensures forall h :: h != r.handle ==> (h in r.tree.leaves <==> h in t.leaves)
    ensures forall h :: h in t.leaves && h != r.handle ==> r.tree.leaves[h] == t.leaves[h]
  {
    Added(t.next, Tree(t.leaves[t.next := Leaf(box, id)], t.next + 1))
  }

  /** Deletes exactly the leaf under a live handle; a dead handle is a fault. */
  function Remove(t: Tree, h: Handle): (r: Result<Tree>)
    ensures r.Success? <==> h in t.leaves
    ensures r.Failure? ==> r.fault == DeadLeaf(h)
    ensures r.Success? ==> r.value.leaves.Keys == t.leaves.Keys - {h}
    ensures r.Success? ==> forall k :: k in r.value.leaves ==> r.value.leaves[k] == t.leaves[k]
    ensures r.Success? && Wf(t) ==> Wf(r.value)
  {
    if h in t.leaves then Success(Tree(t.leaves - {h}, t.next)) else Failure(DeadLeaf(h))
  }

  /** The handles of the leaves whose boxes overlap q. */
  function Hits(t: Tree, q: Rect): set<Handle>
  {
    set h | h in t.leaves && Overlaps(t.leaves[h].box, q)
  }

  /** The payloads the tree reports for the query rectangle q. */
  function QueryIds(t: Tree, q: Rect): set<int>
  {
    set h | h in Hits(t, q) :: t.leaves[h].id
  }

  /** A query answer as the library enumerates it: every reported payload
      once, in an order the library does not specify. */
  predicate IsQueryResult(t: Tree, q: Rect, found: seq<int>) {
    && (forall i, j :: 0 <= i < j < |found| ==> found[i] != found[j])
    && (set id | id in found) == QueryIds(t, q)
  }

  /** Nothing is reported by an empty tree. */
  lemma QueryEmpty(q: Rect)
    ensures QueryIds(Empty, q) == {}
  {
  }

  /** Insert/query round trip: after an insertion the new leaf is reported by
      exactly the queries its box overlaps, and the other leaves' answers are
      unchanged. */
  lemma AddThenQuery(t: Tree, box: Rect, id: int, q: Rect)
    requires Wf(t)
    ensures var r := Add(t, box, id);
      Hits(r.tree, q) == if Overlaps(box, q) then Hits(t, q) + {r.handle} else Hits(t, q)
    ensures var r := Add(t, box, id);
      QueryIds(r.tree, q) == if Overlaps(box, q) then QueryIds(t, q) + {id} else QueryIds(t, q)
  {
    var r := Add(t, box, id);
    var expected := if Overlaps(box, q) then Hits(t, q) + {r.handle} else Hits(t, q);
    forall h ensures h in Hits(r.tree, q) <==> h in expected {
    }
    assert Hits(r.tree, q) == expected;
    var ids := if Overlaps(box, q) then QueryIds(t, q) + {id} else QueryIds(t, q);
    forall x ensures x in QueryIds(r.tree, q) <==> x in ids {
      if x in ids {
        if Overlaps(box, q) && x == id {
          assert r.tree.leaves[r.handle].id == x;
        } else {
          var h :| h in Hits(t, q) && t.leaves[h].id == x;
          assert h in Hits(r.tree, q) && r.tree.leaves[h].id == x;
        }
      }
    }
  }

  /** Remove completeness: once a handle is removed no query reports its
      leaf, and every other leaf is reported as before. */
  lemma RemoveThenQuery(t: Tree, h: Handle, q: Rect)
    requires h in t.leaves
    ensures Remove(t, h).Success?
    ensures Hits(Remove(t, h).value, q) == Hits(t, q) - {h}
  {
    var t' := Remove(t, h).value;
    forall k ensures k in Hits(t', q) <==> k in Hits(t, q) - {h} {
    }
  }
}
