/** The draw pass: the tree is queried with the view rectangle, the reported
    lines are ordered by id (a stable OrderBy), and each is drawn in that
    order, so overlapping strokes always paint in creation order. */
module DrawOrder {
  import opened Geometry
  import opened SpatialIndex
  import opened LineStore

  predicate SortedById(s: seq<Line>) {
    forall i, j :: 0 <= i < j < |s| ==> s[i].id <= s[j].id
  }

  predicate Distinct<T(==)>(s: seq<T>) {
    forall i, j :: 0 <= i < j < |s| ==> s[i] != s[j]
  }

  /** Places l in front of the first line whose id is not smaller. */
  function Insert(l: Line, s: seq<Line>): (r: seq<Line>)
    requires SortedById(s)
    ensures SortedById(r)
    ensures multiset(r) == multiset(s) + multiset{l}
  {
    if |s| == 0 || l.id <= s[0].id then [l] + s
    else
      var rest := Insert(l, s[1..]);
      assert s == [s[0]] + s[1..];
      assert forall k :: 0 <= k < |rest| ==> s[0].id <= rest[k].id by {
        forall k | 0 <= k < |rest| ensures s[0].id <= rest[k].id {
          assert rest[k] in multiset(rest);
          assert rest[k] in s[1..] || rest[k] == l;
        }
      }
      [s[0]] + rest
  }

  /** OrderBy(e => e.Id): the lines ordered by id, a permutation of the input. */
  function SortById(s: seq<Line>): (r: seq<Line>)
    ensures SortedById(r)
    ensures multiset(r) == multiset(s)
    ensures |r| == |s|
  {
    if |s| == 0 then []
    else
      assert s == [s[0]] + s[1..];
      Insert(s[0], SortById(s[1..]))
  }

  /** The lines behind the ids the tree reported; the tree holds each line's
      id as its payload, and an id without a line is skipped. */
  function Resolve(lines: map<int, Line>, found: seq<int>): (r: seq<Line>)
    ensures (forall i :: 0 <= i < |found| ==> found[i] in lines) ==>
      |r| == |found| && forall i :: 0 <= i < |r| ==> r[i] == lines[found[i]]
    ensures forall l :: l in r ==> exists i :: 0 <= i < |found| && found[i] in lines && lines[found[i]] == l
  {
    if |found| == 0 then []
    else
      var rest := Resolve(lines, found[1..]);
      if found[0] in lines then [lines[found[0]]] + rest else rest
  }

  /** The lines drawn for a query answer, in drawing order. */
  function DrawList(s: Store, found: seq<int>): seq<Line>
  {
    SortById(Resolve(s.lines, found))
  }

  /** What the draw pass paints for any order the tree enumerates its answer
      in: a permutation of the reported lines, strictly ascending by id, and
      exactly the stored lines whose boxes overlap the view. */
  lemma DrawListSpec(s: Store, view: Rect, found: seq<int>)
    requires Valid(s)
    requires IsQueryResult(s.tree, view, found)
    ensures var r := DrawList(s, found);
      && multiset(r) == multiset(Resolve(s.lines, found))
      && |r| == |found|
      && (forall i, j :: 0 <= i < j < |r| ==> r[i].id < r[j].id)
      && (forall l :: l in r <==> l.id in s.lines && s.lines[l.id] == l && Overlaps(l.aabb, view))
  {
    QueryInStore(s, view);
    assert forall i :: 0 <= i < |found| ==> found[i] in QueryIds(s.tree, view);
    var resolved := Resolve(s.lines, found);
    ResolveDistinct(s, found);
    var r := DrawList(s, found);
    DistinctPerm(r, resolved);
    forall l | l in r ensures l.id in s.lines && s.lines[l.id] == l {
      assert l in multiset(resolved);
    }
    StrictlyAscending(s, r);
    forall l: Line | l.id in s.lines && s.lines[l.id] == l && Overlaps(l.aabb, view) ensures l in r {
      assert l.id in QueryIds(s.tree, view);
      var i :| 0 <= i < |found| && found[i] == l.id;
      assert resolved[i] == l;
      assert l in multiset(r);
    }
    forall l | l in r ensures Overlaps(l.aabb, view) {
      assert l in multiset(resolved);
      var i :| 0 <= i < |resolved| && resolved[i] == l;
      assert found[i] in QueryIds(s.tree, view);
    }
  }

  /** The lines behind distinct stored ids are distinct, each under its own id. */
  lemma ResolveDistinct(s: Store, found: seq<int>)
    requires Valid(s)
    requires Distinct(found)
    requires forall i :: 0 <= i < |found| ==> found[i] in s.lines
    ensures Distinct(Resolve(s.lines, found))
    ensures forall l :: l in Resolve(s.lines, found) ==> l.id in s.lines && s.lines[l.id] == l
  {
    var resolved := Resolve(s.lines, found);
    forall i, j | 0 <= i < j < |resolved| ensures resolved[i] != resolved[j] {
      assert resolved[i].id == found[i] && resolved[j].id == found[j];
    }
  }

  /** Sorted, repeat-free stored lines have strictly increasing ids. */
  lemma StrictlyAscending(s: Store, r: seq<Line>)
    requires Valid(s)
    requires SortedById(r) && Distinct(r)
    requires forall l :: l in r ==> l.id in s.lines && s.lines[l.id] == l
    ensures forall i, j :: 0 <= i < j < |r| ==> r[i].id < r[j].id
  {
    forall i, j | 0 <= i < j < |r| ensures r[i].id < r[j].id {
      assert r[i] in r && r[j] in r;
    }
  }

  /** A permutation of a sequence without repeats has no repeats. */
  lemma DistinctPerm<T>(a: seq<T>, b: seq<T>)
    requires multiset(a) == multiset(b)
    requires Distinct(b)
    ensures Distinct(a)
  {
    forall i, j | 0 <= i < j < |a| ensures a[i] != a[j] {
      if a[i] == a[j] {
        var x := a[i];
        assert a == a[..j] + a[j..];
        assert x in a[..j] && x in a[j..];
        assert multiset(a)[x] == multiset(a[..j])[x] + multiset(a[j..])[x];
        AtMostOnce(b, x);
        assert false;
      }
    }
  }

  /** In a sequence without repeats every value occurs at most once. */
  lemma {:induction false} AtMostOnce<T>(s: seq<T>, x: T)
    requires Distinct(s)
    ensures multiset(s)[x] <= 1
  {
    if |s| > 0 {
      assert s == [s[0]] + s[1..];
      AtMostOnce(s[1..], x);
      if s[0] == x {
        assert x !in s[1..];
      }
    }
  }
}
