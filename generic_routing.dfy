/**
 * Where PassDownObjects of OctreeNodeGeneric<T> puts each dictionary entry
 * when the children have a depth budget and room for the whole dictionary:
 * every entry moves to the first child, in index order, whose cube contains
 * its key, or stays in the parent when no cube does, and none is lost.
 */
module GenericRouting {
  import opened Geometry
  import opened Wrappers
  import opened GenericModel
  import opened GenericProperties

  /** The index of the first of kids[i..] whose cube contains q, or |kids| if none does. */
  function FirstIn<T>(kids: seq<Node<T>>, q: Point, i: int): (k: int)
    requires 0 <= i <= |kids|
    ensures i <= k <= |kids|
    decreases |kids| - i
  {
    if i == |kids| then |kids| else if Contains(kids[i], q) then i else FirstIn(kids, q, i + 1)
  }

  lemma {:induction false} FirstInUpdate<T>(kids: seq<Node<T>>, i: int, c: Node<T>, q: Point, j: int)
    requires 0 <= i < j <= |kids|
    ensures FirstIn(kids[i := c], q, j) == FirstIn(kids, q, j)
    decreases |kids| - j
  {
    if j < |kids| {
      FirstInUpdate(kids, i, c, q, j + 1);
    }
  }

  lemma {:induction false} FirstInIs<T>(kids: seq<Node<T>>, q: Point, i: int, m: int)
    requires 0 <= i <= m <= |kids|
    requires m < |kids| ==> Contains(kids[m], q)
    requires forall j :: i <= j < m ==> !Contains(kids[j], q)
    ensures FirstIn(kids, q, i) == m
    decreases m - i
  {
    if i < m {
      FirstInIs(kids, q, i + 1, m);
    }
  }

  /**
   * Scanning SubDivide's children in index order, the first cube that
   * contains a point of the parent's cube is its octant, and a point outside
   * the parent's cube is in none.
   */
  lemma FirstInSubDivide<T>(t: Node<T>, q: Point)
    ensures FirstIn(SubDivide(t), q, 0) == if InBox(t.center, t.radius, q) then OctantIndex(t.center, q) else 8
  {
    var kids := SubDivide(t);
    SubDivideAt(t);
    if InBox(t.center, t.radius, q) {
      OctantIndexIsFirstContainingChild(t.center, t.radius, q);
      FirstInIs(kids, q, 0, OctantIndex(t.center, q));
    } else {
      forall j | 0 <= j < 8 ensures !Contains(kids[j], q) {
        if Contains(kids[j], q) {
          ChildBoxInsideParent(t.center, t.radius, j, q);
        }
      }
      FirstInIs(kids, q, 0, 8);
    }
  }

  /** A leaf that has counted every own entry and still has a depth budget. */
  predicate OpenLeaf<T>(c: Node<T>)
  {
    !c.divided && c.children == [] && c.count == |c.objects| && c.depth != 0 && UniqueKeys(c.objects)
  }

  predicate SameConfig<T>(a: Node<T>, b: Node<T>)
  {
    a.center == b.center && a.radius == b.radius && a.capacity == b.capacity && a.depth == b.depth && a.maxDepth == b.maxDepth
  }

  /** With unique keys, taking out index k leaves exactly the other entries. */
  lemma RemoveAtMembers<T>(s: seq<Entry<T>>, k: int)
    requires UniqueKeys(s) && 0 <= k < |s|
    ensures s[k] !in s[..k]
    ensures forall e :: e in s[..k] + s[k + 1..] <==> e in s && e != s[k]
  {
    var s' := s[..k] + s[k + 1..];
    assert forall m :: 0 <= m < |s'| ==> s'[m] == if m < k then s[m] else s[m + 1];
    forall e | e in s ensures e in s' || e == s[k] {
      var m :| 0 <= m < |s| && s[m] == e;
      if m < k { assert s'[m] == e; } else if m > k { assert s'[m - 1] == e; }
    }
  }

  /**
   * The inner loop of PassDownObjects on a leaf child with room for every
   * entry it is offered, none of whose keys it holds: the child takes exactly
   * the offered entries its cube contains, they leave the list, and nothing
   * throws or is lost.
   */
  lemma {:induction false} PassDownIntoPlaces<T>(c: Node<T>, ps: seq<Entry<T>>, j: int, e: Entry<T>)
    requires 0 <= j <= |ps| && OpenLeaf(c) && |c.objects| + j <= c.capacity && UniqueKeys(ps)
    requires forall m :: 0 <= m < j ==> ps[m].0 !in Keys(c.objects)
    ensures var r := PassDownInto(c, ps, j);
      && r.0.None? && OpenLeaf(r.1) && SameConfig(c, r.1) && UniqueKeys(r.2)
      && (e in r.1.objects <==> e in c.objects || (e in ps[..j] && Contains(c, e.0)))
      && (e in r.2 <==> e in ps && !(e in ps[..j] && Contains(c, e.0)))
      && |r.1.objects| + |r.2| == |c.objects| + |ps|
    decreases j
  {
    if j > 0 {
      var k := j - 1;
      assert ps[..j] == ps[..k] + [ps[k]];
      if Contains(c, ps[k].0) {
        var c1 := c.(count := c.count + 1, objects := c.objects + [ps[k]]);
        KeysAppend(c.objects, ps[k]);
        assert Insert(c, ps[k].0, ps[k].1) == (Returned(true), c1);
        var ps1 := ps[..k] + ps[k + 1..];
        RemoveEntryAt(ps, k);
        UniqueRemoveAt(ps, k);
        RemoveAtMembers(ps, k);
        assert ps1[..k] == ps[..k];
        forall m | 0 <= m < k ensures ps1[m].0 !in Keys(c1.objects) {
          assert ps1[m] == ps[m];
        }
        PassDownIntoPlaces(c1, ps1, k, e);
      } else {
        PassDownIntoPlaces(c, ps, k, e);
      }
    }
  }

  /** Children i.. are fresh leaves with room for n entries. */
  predicate FreshFrom<T>(kids: seq<Node<T>>, i: int, n: int)
  {
    forall k :: i <= k < |kids| && 0 <= k ==> OpenLeaf(kids[k]) && kids[k].objects == [] && n <= kids[k].capacity
  }

  lemma FreshIsEmpty<T>(kids: seq<Node<T>>, i: int, n: int)
    requires 0 <= i <= |kids| && FreshFrom(kids, i, n)
    ensures EmptyFrom(kids, i)
  {
    forall k | i <= k < |kids| ensures Entries(kids[k]) == 0 {
      assert kids[k].children == [];
    }
  }

  /**
   * One step of the outer loop over a fresh child: nothing throws, the rest
   * has unique keys, the loop goes on with the next child, and the later
   * children stay fresh.
   */
  lemma PassDownStepFresh<T>(kids: seq<Node<T>>, ps: seq<Entry<T>>, i: int) returns (c: Node<T>, rest: seq<Entry<T>>)
    requires 0 <= i < |kids| && FreshFrom(kids, i, |ps|) && UniqueKeys(ps)
    ensures EmptyFrom(kids, i)
    ensures PassDownInto(kids[i], ps, |ps|) == (None, c, rest)
    ensures OpenLeaf(c) && SameConfig(kids[i], c) && UniqueKeys(rest)
    ensures |c.objects| + |rest| == |ps|
    ensures FreshFrom(kids[i := c], i + 1, |rest|)
    ensures EmptyFrom(kids[i := c], i + 1)
    ensures PassDown(kids, ps, i) == PassDown(kids[i := c], rest, i + 1)
  {
    FreshIsEmpty(kids, i, |ps|);
    var r := PassDownInto(kids[i], ps, |ps|);
    if ps != [] {
      PassDownIntoPlaces(kids[i], ps, |ps|, ps[0]);
    }
    c, rest := r.1, r.2;
    PassDownStep(kids, ps, i);
    FreshIsEmpty(kids[i := c], i + 1, |rest|);
  }

  /** What child i takes in that step: the offered entries its cube contains. */
  lemma PassDownStepTakes<T>(kids: seq<Node<T>>, ps: seq<Entry<T>>, i: int, e: Entry<T>)
    requires 0 <= i < |kids| && FreshFrom(kids, i, |ps|) && UniqueKeys(ps)
    ensures var r := PassDownInto(kids[i], ps, |ps|);
      && (e in r.1.objects <==> e in ps && Contains(kids[i], e.0))
      && (e in r.2 <==> e in ps && !Contains(kids[i], e.0))
  {
    assert ps[..|ps|] == ps;
    PassDownIntoPlaces(kids[i], ps, |ps|, e);
  }

  /** The outer loop of PassDownObjects leaves earlier children alone and later ones open leaves. */
  lemma {:induction false} PassDownFrame<T>(kids: seq<Node<T>>, ps: seq<Entry<T>>, i: int)
    requires 0 <= i <= |kids| && FreshFrom(kids, i, |ps|) && UniqueKeys(ps)
    ensures EmptyFrom(kids, i)
    ensures var r := PassDown(kids, ps, i);
      && r.0.None? && UniqueKeys(r.2)
      && (forall k :: 0 <= k < i ==> r.1[k] == kids[k])
      && (forall k :: i <= k < |kids| ==> OpenLeaf(r.1[k]) && SameConfig(kids[k], r.1[k]))
    decreases |kids| - i
  {
    FreshIsEmpty(kids, i, |ps|);
    if i < |kids| {
      var c, rest := PassDownStepFresh(kids, ps, i);
      PassDownFrame(kids[i := c], rest, i + 1);
    }
  }

  /**
   * The outer loop of PassDownObjects over fresh children with room for all
   * the parent's entries: an entry stays in the parent exactly when no
   * child's cube contains its key, and the number of entries is kept.
   */
  lemma {:induction false} PassDownRest<T>(kids: seq<Node<T>>, ps: seq<Entry<T>>, i: int, e: Entry<T>)
    requires 0 <= i <= |kids| && FreshFrom(kids, i, |ps|) && UniqueKeys(ps)
    ensures EmptyFrom(kids, i)
    ensures var r := PassDown(kids, ps, i);
      && (e in r.2 <==> e in ps && FirstIn(kids, e.0, i) == |kids|)
      && EntriesOf(r.1) + |r.2| == EntriesOf(kids) + |ps|
    decreases |kids| - i
  {
    FreshIsEmpty(kids, i, |ps|);
    if i < |kids| {
      var c, rest := PassDownStepFresh(kids, ps, i);
      PassDownStepTakes(kids, ps, i, e);
      EntriesOfUpdate(kids, i, c);
      assert Entries(c) == |c.objects| && Entries(kids[i]) == 0;
      PassDownRest(kids[i := c], rest, i + 1, e);
      FirstInUpdate(kids, i, c, e.0, i + 1);
    }
  }

  /** ... and child k ends up holding exactly the entries whose first containing child it is. */
  lemma {:induction false} PassDownChildGets<T>(kids: seq<Node<T>>, ps: seq<Entry<T>>, i: int, e: Entry<T>, k: int)
    requires 0 <= i <= k < |kids| && FreshFrom(kids, i, |ps|) && UniqueKeys(ps)
    ensures EmptyFrom(kids, i)
    ensures e in PassDown(kids, ps, i).1[k].objects <==> e in ps && FirstIn(kids, e.0, i) == k
    decreases |kids| - i
  {
    var c, rest := PassDownStepFresh(kids, ps, i);
    PassDownStepTakes(kids, ps, i, e);
    if k == i {
      PassDownFrame(kids[i := c], rest, i + 1);
    } else {
      PassDownChildGets(kids[i := c], rest, i + 1, e, k);
      FirstInUpdate(kids, i, c, e.0, i + 1);
    }
  }

  /**
   * The overflow branch of Insert when the children have a depth budget and
   * room for all the node's entries: nothing throws, every entry whose key is
   * inside the node's cube moves to the child of its octant, every other
   * entry stays in the node's own dictionary, the new entry is dropped, and
   * the number of entries is kept.
   */
  lemma SplitRoutesEntries<T>(t: Node<T>, pos: Point, obj: T, e: Entry<T>)
    requires t.depth != 0 && t.depth != 1 && !t.divided && t.count >= t.capacity
    requires (pos, obj) !in t.objects && |t.objects| <= t.capacity && UniqueKeys(t.objects)
    ensures var r := Insert(t, pos, obj);
      && r.0 == Returned(true) && r.1.divided && r.1.count == 0 && |r.1.children| == 8
      && (forall k :: 0 <= k < 8 ==> OpenLeaf(r.1.children[k]))
      && (e in r.1.objects <==> e in t.objects && !InBox(t.center, t.radius, e.0))
      && (forall k :: 0 <= k < 8 ==>
            (e in r.1.children[k].objects <==> e in t.objects && InBox(t.center, t.radius, e.0) && k == OctantIndex(t.center, e.0)))
      && Entries(r.1) == |t.objects|
  {
    var kids := SubDivide(t);
    SubDivideAt(t);
    SubDivideIsEmpty(t);
    assert FreshFrom(kids, 0, |t.objects|);
    FirstInSubDivide(t, e.0);
    PassDownFrame(kids, t.objects, 0);
    PassDownRest(kids, t.objects, 0, e);
    forall k | 0 <= k < 8
      ensures e in PassDown(kids, t.objects, 0).1[k].objects <==> e in t.objects && FirstIn(kids, e.0, 0) == k
    {
      PassDownChildGets(kids, t.objects, 0, e, k);
    }
  }
}
