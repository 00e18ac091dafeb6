/**
 * Properties of the position octree, proved about the functional model in
 * PositionModel: where entries can go, what an insert or a remove can add
 * or drop, the shape a node keeps, and the quirks of the overflow, depth and
 * collapse rules.
 */
module PositionProperties {
  import opened Geometry
  import opened Wrappers
  import opened PositionModel

  /** How many times position q is held in a subtree, own lists and all below. */
  function Occ(t: Node, q: Point): nat
    decreases t
  {
    multiset(t.positions)[q] + OccOf(t.children, q)
  }

  function OccOf(s: seq<Node>, q: Point): nat
    decreases s
  {
    if s == [] then 0 else OccOf(s[..|s| - 1], q) + Occ(s[|s| - 1], q)
  }

  lemma OccOfUpdate(s: seq<Node>, i: int, c: Node, q: Point)
    requires 0 <= i < |s|
    ensures OccOf(s[i := c], q) + Occ(s[i], q) == OccOf(s, q) + Occ(c, q)
    decreases |s|
  {
    if i < |s| - 1 {
      assert s[i := c][..|s| - 1] == s[..|s| - 1][i := c];
      OccOfUpdate(s[..|s| - 1], i, c, q);
    } else {
      assert s[i := c][..|s| - 1] == s[..|s| - 1];
    }
  }

  /** A subtree without entries holds no position. */
  lemma EntriesEmpty(t: Node, q: Point)
    requires Entries(t) == 0
    ensures Occ(t, q) == 0
    decreases t, 1
  {
    EntriesOfEmpty(t.children, q);
  }

  lemma EntriesOfEmpty(s: seq<Node>, q: Point)
    requires EntriesOf(s) == 0
    ensures OccOf(s, q) == 0
    decreases s, 0
  {
    if s != [] {
      EntriesOfEmpty(s[..|s| - 1], q);
      EntriesEmpty(s[|s| - 1], q);
    }
  }

  /** Removing the element at k from a list takes one copy of it out. */
  lemma RemoveAtCount(s: seq<Point>, k: int, q: Point)
    requires 0 <= k < |s|
    ensures multiset(s[..k] + s[k + 1..])[q] + (if q == s[k] then 1 else 0) == multiset(s)[q]
  {
    assert s == s[..k] + [s[k]] + s[k + 1..];
  }

  // ---------------------------------------------------------------------
  // List<Vector3>.Remove

  /**
   * RemoveFirst deletes exactly the first occurrence: the list splits at the
   * first index holding p, and the result is the list without that index.
   */
  lemma {:induction false} RemoveFirstSplits(s: seq<Point>, p: Point) returns (i: int)
    requires p in s
    ensures 0 <= i < |s| && s[i] == p && p !in s[..i] && RemoveFirst(s, p) == s[..i] + s[i + 1..]
  {
    if s[0] == p {
      i := 0;
      assert s[..0] == [];
    } else {
      var i' := RemoveFirstSplits(s[1..], p);
      i := i' + 1;
      assert s[..i] == [s[0]] + s[1..][..i'];
      assert s[i + 1..] == s[1..][i' + 1..];
    }
  }

  /** Remove from a list takes out one copy when there is one and otherwise changes nothing. */
  lemma {:induction false} RemoveFirstMultiset(s: seq<Point>, p: Point)
    ensures p in s ==> multiset(RemoveFirst(s, p)) + multiset{p} == multiset(s)
    ensures p !in s ==> RemoveFirst(s, p) == s
  {
    if s != [] && s[0] != p {
      RemoveFirstMultiset(s[1..], p);
      assert s == [s[0]] + s[1..];
    } else if s != [] {
      assert s == [s[0]] + s[1..];
    }
  }

  // ---------------------------------------------------------------------
  // Nothing is created

  /** Fresh children hold nothing. */
  lemma EmptyFromOcc(s: seq<Node>, q: Point)
    requires EmptyFrom(s, 0)
    ensures OccOf(s, q) == 0
  {
    EntriesOfZero(s);
    EntriesOfEmpty(s, q);
  }

  /**
   * An insert adds at most the one position it was given to a subtree: no
   * position other than p is held more often afterwards, and p at most once
   * more. Entries can be lost (an overflowing node drops the new position, and
   * a child can overflow during PassDownObjects too), but none is made up.
   */
  lemma {:induction false} InsertAddsAtMostP(t: Node, p: Point, obj: Option<GameObject>, q: Point)
    ensures Occ(Insert(t, p, obj).1, q) <= Occ(t, q) + (if q == p then 1 else 0)
    decreases Entries(t), Entries(t) + Size(t) + 1, 0
  {
    if t.depth == 0 || p in t.positions {
    } else if t.count < t.capacity && !t.divided {
    } else if !t.divided {
      SubDivideIsEmpty(t);
      EmptyFromOcc(SubDivide(t), q);
      PassDownKeeps(SubDivide(t), t.positions, 0, q);
    } else {
      InsertChildrenAddsAtMostP(t.children, 0, p, q);
    }
  }

  lemma {:induction false} InsertChildrenAddsAtMostP(kids: seq<Node>, i: int, p: Point, q: Point)
    requires 0 <= i <= |kids|
    ensures OccOf(InsertChildren(kids, i, p).1, q) <= OccOf(kids, q) + (if q == p then 1 else 0)
    decreases EntriesOf(kids), EntriesOf(kids) + SizeOf(kids) + 1, |kids| - i
  {
    if i == |kids| {
    } else if Contains(kids[i], p) {
      EntriesOfUpdate(kids, i, kids[i]);
      var (ok, c) := Insert(kids[i], p, None);
      EntriesOfUpdate(kids, i, c);
      if ok {
        InsertAddsAtMostP(kids[i], p, None, q);
        OccOfUpdate(kids, i, c, q);
      } else {
        InsertChildrenAddsAtMostP(kids, i + 1, p, q);
      }
    } else {
      InsertChildrenAddsAtMostP(kids, i + 1, p, q);
    }
  }

  /** Pass-down only moves the parent's positions into the children (some may be dropped). */
  lemma {:induction false} PassDownKeeps(kids: seq<Node>, ps: seq<Point>, i: int, q: Point)
    requires 0 <= i <= |kids| && EmptyFrom(kids, i)
    ensures var r := PassDown(kids, ps, i); OccOf(r.0, q) + multiset(r.1)[q] <= OccOf(kids, q) + multiset(ps)[q]
    decreases |ps|, |ps| + 1, |kids| - i
  {
    if i < |kids| {
      var (c, rest) := PassDownInto(kids[i], ps, |ps|);
      PassDownIntoKeeps(kids[i], ps, |ps|, q);
      PassDownStep(kids, ps, i);
      EntriesOfUpdate(kids, i, c);
      OccOfUpdate(kids, i, c, q);
      PassDownKeeps(kids[i := c], rest, i + 1, q);
    }
  }

  lemma {:induction false} PassDownIntoKeeps(c: Node, ps: seq<Point>, j: int, q: Point)
    requires 0 <= j <= |ps|
    ensures var r := PassDownInto(c, ps, j); Occ(r.0, q) + multiset(r.1)[q] <= Occ(c, q) + multiset(ps)[q]
    decreases Entries(c) + j, j, 0
  {
    if j > 0 {
      var k := j - 1;
      if Contains(c, ps[k]) {
        var (ok, c') := Insert(c, ps[k], None);
        InsertAddsAtMostP(c, ps[k], None, q);
        if ok {
          RemoveAtCount(ps, k, q);
          PassDownIntoKeeps(c', ps[..k] + ps[k + 1..], k, q);
        } else {
          PassDownIntoKeeps(c', ps, k, q);
        }
      } else {
        PassDownIntoKeeps(c, ps, k, q);
      }
    }
  }

  /**
   * A remove that reports success has taken one copy of p out of the subtree;
   * no remove adds anything. Any remove can also drop other entries, because a
   * failed remove on the way down may collapse a node whose children still hold
   * positions.
   */
  lemma {:induction false} RemoveTakesOutP(t: Node, p: Point, q: Point)
    ensures var (ok, t') := Remove(t, p);
      Occ(t', q) + (if ok && q == p then 1 else 0) <= Occ(t, q)
    decreases Size(t), 0
  {
    if !t.divided {
      RemoveFirstMultiset(t.positions, p);
    } else {
      RemoveChildrenTakesOutP(t.children, 0, p, 8, q);
    }
  }

  lemma {:induction false} RemoveChildrenTakesOutP(kids: seq<Node>, i: int, p: Point, active: int, q: Point)
    requires 0 <= i <= |kids|
    ensures var (ok, kids', _) := RemoveChildren(kids, i, p, active);
      OccOf(kids', q) + (if ok && q == p then 1 else 0) <= OccOf(kids, q)
    decreases SizeOf(kids), |kids| - i
  {
    if i < |kids| {
      var active' := if |kids[i].positions| == 0 then active - 1 else active;
      if Contains(kids[i], p) {
        EntriesOfUpdate(kids, i, kids[i]);
        var (ok, c) := Remove(kids[i], p);
        EntriesOfUpdate(kids, i, c);
        RemoveTakesOutP(kids[i], p, q);
        OccOfUpdate(kids, i, c, q);
        if !ok {
          RemoveChildrenTakesOutP(kids[i := c], i + 1, p, active', q);
        }
      } else {
        RemoveChildrenTakesOutP(kids, i + 1, p, active', q);
      }
    }
  }

  /**
   * An insert of a new position into a full undivided node with depth left
   * reports success, marks the node divided and resets its counter, yet the
   * position is held nowhere afterwards: the tree holds only what the node's
   * own list held.
   */
  lemma OverflowDropsPosition(t: Node, p: Point, obj: Option<GameObject>, q: Point)
    requires t.depth != 0 && p !in t.positions && !t.divided && t.count >= t.capacity
    ensures var (ok, t') := Insert(t, p, obj);
      && ok && t'.divided && t'.count == 0 && |t'.children| == 8
      && Occ(t', q) <= multiset(t.positions)[q]
      && Occ(t', p) == 0
  {
    SubDivideIsEmpty(t);
    EmptyFromOcc(SubDivide(t), q);
    PassDownKeeps(SubDivide(t), t.positions, 0, q);
    EmptyFromOcc(SubDivide(t), p);
    PassDownKeeps(SubDivide(t), t.positions, 0, p);
  }

  // ---------------------------------------------------------------------
  // Shape: every divided node has the eight octant children SubDivide made

  /** Child k of t has the cube, capacity and depth budget SubDivide gives it. */
  predicate ChildOf(t: Node, c: Node, k: int)
    requires 0 <= k < 8
  {
    && c.center == ChildCenter(t.center, t.radius, k) && c.radius == t.radius / 2.0
    && c.capacity == t.capacity && c.depth == t.depth - 1 && c.maxDepth == t.maxDepth
  }

  /** The fields an operation never changes. */
  predicate SameConfig(a: Node, b: Node)
  {
    a.center == b.center && a.radius == b.radius && a.capacity == b.capacity && a.depth == b.depth && a.maxDepth == b.maxDepth
  }

  /** A leaf has no children; a divided node has eight, each in its octant and shaped alike. */
  predicate WellShaped(t: Node)
    decreases t
  {
    if t.divided then
      |t.children| == 8 && forall k :: 0 <= k < 8 ==> ChildOf(t, t.children[k], k) && WellShaped(t.children[k])
    else t.children == []
  }

  predicate KidsOf(t: Node, kids: seq<Node>)
  {
    |kids| == 8 && forall k :: 0 <= k < 8 ==> ChildOf(t, kids[k], k) && WellShaped(kids[k])
  }

  lemma KidsOfUpdate(t: Node, kids: seq<Node>, i: int, c: Node)
    requires KidsOf(t, kids) && 0 <= i < 8 && SameConfig(kids[i], c) && WellShaped(c)
    ensures KidsOf(t, kids[i := c])
  {
  }

  /** A node built by the constructor and SubDivide's eight children are well shaped. */
  lemma SubDivideShaped(t: Node)
    ensures KidsOf(t, SubDivide(t))
  {
    SubDivideAt(t);
  }

  /** InsertPosition keeps the shape and never changes the node's own configuration. */
  lemma {:induction false} InsertKeepsShape(t: Node, p: Point, obj: Option<GameObject>)
    requires WellShaped(t)
    ensures WellShaped(Insert(t, p, obj).1) && SameConfig(t, Insert(t, p, obj).1)
    decreases Entries(t), Entries(t) + Size(t) + 1, 0
  {
    if t.depth == 0 || p in t.positions {
    } else if t.count < t.capacity && !t.divided {
    } else if !t.divided {
      SubDivideIsEmpty(t);
      SubDivideShaped(t);
      PassDownKeepsShape(t, SubDivide(t), t.positions, 0);
    } else {
      InsertChildrenKeepsShape(t, t.children, 0, p);
    }
  }

  lemma {:induction false} InsertChildrenKeepsShape(t: Node, kids: seq<Node>, i: int, p: Point)
    requires KidsOf(t, kids) && 0 <= i <= 8
    ensures KidsOf(t, InsertChildren(kids, i, p).1)
    decreases EntriesOf(kids), EntriesOf(kids) + SizeOf(kids) + 1, |kids| - i
  {
    if i == |kids| {
    } else if Contains(kids[i], p) {
      EntriesOfUpdate(kids, i, kids[i]);
      var (ok, c) := Insert(kids[i], p, None);
      EntriesOfUpdate(kids, i, c);
      if ok {
        InsertKeepsShape(kids[i], p, None);
        KidsOfUpdate(t, kids, i, c);
      } else {
        InsertChildrenKeepsShape(t, kids, i + 1, p);
      }
    } else {
      InsertChildrenKeepsShape(t, kids, i + 1, p);
    }
  }

  lemma {:induction false} PassDownKeepsShape(t: Node, kids: seq<Node>, ps: seq<Point>, i: int)
    requires KidsOf(t, kids) && 0 <= i <= 8 && EmptyFrom(kids, i)
    ensures KidsOf(t, PassDown(kids, ps, i).0)
    decreases |ps|, |ps| + 1, |kids| - i
  {
    if i < |kids| {
      var (c, rest) := PassDownInto(kids[i], ps, |ps|);
      PassDownIntoKeepsShape(kids[i], ps, |ps|);
      PassDownStep(kids, ps, i);
      EntriesOfUpdate(kids, i, c);
      KidsOfUpdate(t, kids, i, c);
      PassDownKeepsShape(t, kids[i := c], rest, i + 1);
    }
  }

  lemma {:induction false} PassDownIntoKeepsShape(c: Node, ps: seq<Point>, j: int)
    requires 0 <= j <= |ps| && WellShaped(c)
    ensures WellShaped(PassDownInto(c, ps, j).0) && SameConfig(c, PassDownInto(c, ps, j).0)
    decreases Entries(c) + j, j, 0
  {
    if j > 0 {
      var k := j - 1;
      if Contains(c, ps[k]) {
        var (ok, c') := Insert(c, ps[k], None);
        InsertKeepsShape(c, ps[k], None);
        if ok {
          PassDownIntoKeepsShape(c', ps[..k] + ps[k + 1..], k);
        } else {
          PassDownIntoKeepsShape(c', ps, k);
        }
      } else {
        PassDownIntoKeepsShape(c, ps, k);
      }
    }
  }

  /** RemovePosition keeps the shape, collapse included, and the configuration. */
  lemma {:induction false} RemoveKeepsShape(t: Node, p: Point)
    requires WellShaped(t)
    ensures WellShaped(Remove(t, p).1) && SameConfig(t, Remove(t, p).1)
    decreases Size(t), 0
  {
    if t.divided {
      RemoveChildrenKeepsShape(t, t.children, 0, p, 8);
    }
  }

  lemma {:induction false} RemoveChildrenKeepsShape(t: Node, kids: seq<Node>, i: int, p: Point, active: int)
    requires KidsOf(t, kids) && 0 <= i <= 8
    ensures KidsOf(t, RemoveChildren(kids, i, p, active).1)
    decreases SizeOf(kids), |kids| - i
  {
    if i < |kids| {
      var active' := if |kids[i].positions| == 0 then active - 1 else active;
      if Contains(kids[i], p) {
        EntriesOfUpdate(kids, i, kids[i]);
        var (ok, c) := Remove(kids[i], p);
        EntriesOfUpdate(kids, i, c);
        RemoveKeepsShape(kids[i], p);
        KidsOfUpdate(t, kids, i, c);
        if !ok {
          RemoveChildrenKeepsShape(t, kids[i := c], i + 1, p, active');
        }
      } else {
        RemoveChildrenKeepsShape(t, kids, i + 1, p, active');
      }
    }
  }

  // ---------------------------------------------------------------------
  // Placement: below the root every entry lies in its node's cube

  predicate OwnInside(t: Node)
  {
    forall q :: q in t.positions ==> Contains(t, q)
  }

  /** Every node of the subtree holds only positions inside its own cube. */
  predicate AllInside(t: Node)
    decreases t
  {
    OwnInside(t) && forall k :: 0 <= k < |t.children| ==> AllInside(t.children[k])
  }

  predicate KidsInside(kids: seq<Node>)
  {
    forall k :: 0 <= k < |kids| ==> AllInside(kids[k])
  }

  /**
   * A node's children hold only positions inside their cubes. The root itself
   * is exempt: a leaf insert has no bounds check, so the root keeps positions
   * outside its cube, and a later split leaves them in the root's own list.
   */
  predicate Placed(t: Node)
  {
    KidsInside(t.children)
  }

  /** Positions a pass-down leaves in the parent were the parent's. */
  lemma PassDownRestFromParent(kids: seq<Node>, ps: seq<Point>, q: Point)
    requires EmptyFrom(kids, 0) && q in PassDown(kids, ps, 0).1
    ensures q in ps
  {
    PassDownKeeps(kids, ps, 0, q);
    EmptyFromOcc(kids, q);
    assert multiset(PassDown(kids, ps, 0).1)[q] > 0;
  }

  /**
   * InsertPosition keeps every child's entries inside the child's cube, and a
   * node whose own entries are inside its cube keeps them so when the new
   * position is inside too: children are only offered positions they contain.
   */
  lemma {:induction false} InsertKeepsPlaced(t: Node, p: Point, obj: Option<GameObject>)
    ensures Placed(t) ==> Placed(Insert(t, p, obj).1)
    ensures AllInside(t) && Contains(t, p) ==> AllInside(Insert(t, p, obj).1)
    decreases Entries(t), Entries(t) + Size(t) + 1, 0
  {
    if t.depth == 0 || p in t.positions {
    } else if t.count < t.capacity && !t.divided {
    } else if !t.divided {
      SubDivideIsEmpty(t);
      var (kids, rest) := PassDown(SubDivide(t), t.positions, 0);
      PassDownKeepsPlaced(SubDivide(t), t.positions, 0);
      forall q | q in rest
        ensures q in t.positions
      {
        PassDownRestFromParent(SubDivide(t), t.positions, q);
      }
    } else if Placed(t) {
      InsertChildrenKeepsPlaced(t.children, 0, p);
    }
  }

  lemma {:induction false} InsertChildrenKeepsPlaced(kids: seq<Node>, i: int, p: Point)
    requires KidsInside(kids) && 0 <= i <= |kids|
    ensures KidsInside(InsertChildren(kids, i, p).1)
    decreases EntriesOf(kids), EntriesOf(kids) + SizeOf(kids) + 1, |kids| - i
  {
    if i == |kids| {
    } else if Contains(kids[i], p) {
      EntriesOfUpdate(kids, i, kids[i]);
      var (ok, c) := Insert(kids[i], p, None);
      EntriesOfUpdate(kids, i, c);
      if ok {
        InsertKeepsPlaced(kids[i], p, None);
      } else {
        InsertChildrenKeepsPlaced(kids, i + 1, p);
      }
    } else {
      InsertChildrenKeepsPlaced(kids, i + 1, p);
    }
  }

  lemma {:induction false} PassDownKeepsPlaced(kids: seq<Node>, ps: seq<Point>, i: int)
    requires 0 <= i <= |kids| && EmptyFrom(kids, i) && KidsInside(kids)
    ensures KidsInside(PassDown(kids, ps, i).0)
    decreases |ps|, |ps| + 1, |kids| - i
  {
    if i < |kids| {
      var (c, rest) := PassDownInto(kids[i], ps, |ps|);
      PassDownIntoKeepsPlaced(kids[i], ps, |ps|);
      PassDownStep(kids, ps, i);
      EntriesOfUpdate(kids, i, c);
      PassDownKeepsPlaced(kids[i := c], rest, i + 1);
    }
  }

  lemma {:induction false} PassDownIntoKeepsPlaced(c: Node, ps: seq<Point>, j: int)
    requires 0 <= j <= |ps| && AllInside(c)
    ensures AllInside(PassDownInto(c, ps, j).0)
    decreases Entries(c) + j, j, 0
  {
    if j > 0 {
      var k := j - 1;
      if Contains(c, ps[k]) {
        var (ok, c') := Insert(c, ps[k], None);
        InsertKeepsPlaced(c, ps[k], None);
        if ok {
          PassDownIntoKeepsPlaced(c', ps[..k] + ps[k + 1..], k);
        } else {
          PassDownIntoKeepsPlaced(c', ps, k);
        }
      } else {
        PassDownIntoKeepsPlaced(c, ps, k);
      }
    }
  }

  /** RemovePosition never moves a position, so placement is kept. */
  lemma {:induction false} RemoveKeepsPlaced(t: Node, p: Point)
    ensures Placed(t) ==> Placed(Remove(t, p).1)
    ensures AllInside(t) ==> AllInside(Remove(t, p).1)
    decreases Size(t), 0
  {
    if !t.divided {
      if p in t.positions {
        RemoveFirstMultiset(t.positions, p);
        forall q | q in RemoveFirst(t.positions, p)
          ensures q in t.positions
        {
          assert multiset(RemoveFirst(t.positions, p))[q] > 0;
          assert multiset(t.positions)[q] > 0;
        }
      }
    } else if Placed(t) {
      RemoveChildrenKeepsPlaced(t.children, 0, p, 8);
    }
  }

  lemma {:induction false} RemoveChildrenKeepsPlaced(kids: seq<Node>, i: int, p: Point, active: int)
    requires KidsInside(kids) && 0 <= i <= |kids|
    ensures KidsInside(RemoveChildren(kids, i, p, active).1)
    decreases SizeOf(kids), |kids| - i
  {
    if i < |kids| {
      var active' := if |kids[i].positions| == 0 then active - 1 else active;
      if Contains(kids[i], p) {
        EntriesOfUpdate(kids, i, kids[i]);
        var (ok, c) := Remove(kids[i], p);
        EntriesOfUpdate(kids, i, c);
        RemoveKeepsPlaced(kids[i], p);
        if !ok {
          RemoveChildrenKeepsPlaced(kids[i := c], i + 1, p, active');
        }
      } else {
        RemoveChildrenKeepsPlaced(kids, i + 1, p, active');
      }
    }
  }

  // ---------------------------------------------------------------------
  // No node's own list holds a position twice

  predicate NoDup(s: seq<Point>)
  {
    forall i, j :: 0 <= i < j < |s| ==> s[i] != s[j]
  }

  predicate NoDupTree(t: Node)
    decreases t
  {
    NoDup(t.positions) && forall k :: 0 <= k < |t.children| ==> NoDupTree(t.children[k])
  }

  predicate KidsNoDup(kids: seq<Node>)
  {
    forall k :: 0 <= k < |kids| ==> NoDupTree(kids[k])
  }

  /** Taking the element at k out of a duplicate-free list leaves no copy of it. */
  lemma NoDupRemoveAt(s: seq<Point>, k: int)
    requires NoDup(s) && 0 <= k < |s|
    ensures NoDup(s[..k] + s[k + 1..]) && s[k] !in s[..k] + s[k + 1..]
  {
    var s' := s[..k] + s[k + 1..];
    forall a, b | 0 <= a < b < |s'|
      ensures s'[a] != s'[b]
    {
      var a' := if a < k then a else a + 1;
      var b' := if b < k then b else b + 1;
      assert s'[a] == s[a'] && s'[b] == s[b'];
    }
  }

  /** Leaf removal keeps a list duplicate-free and then p is no longer in it. */
  lemma RemoveFirstNoDup(s: seq<Point>, p: Point)
    requires NoDup(s)
    ensures NoDup(RemoveFirst(s, p)) && p !in RemoveFirst(s, p)
  {
    if p in s {
      var i := RemoveFirstSplits(s, p);
      NoDupRemoveAt(s, i);
    } else {
      RemoveFirstMultiset(s, p);
    }
  }

  /** InsertPosition never puts a position twice into a node's own list. */
  lemma {:induction false} InsertKeepsNoDup(t: Node, p: Point, obj: Option<GameObject>)
    requires NoDupTree(t)
    ensures NoDupTree(Insert(t, p, obj).1)
    decreases Entries(t), Entries(t) + Size(t) + 1, 0
  {
    if t.depth == 0 || p in t.positions {
    } else if t.count < t.capacity && !t.divided {
    } else if !t.divided {
      SubDivideIsEmpty(t);
      PassDownKeepsNoDup(SubDivide(t), t.positions, 0);
    } else {
      InsertChildrenKeepsNoDup(t.children, 0, p);
    }
  }

  lemma {:induction false} InsertChildrenKeepsNoDup(kids: seq<Node>, i: int, p: Point)
    requires KidsNoDup(kids) && 0 <= i <= |kids|
    ensures KidsNoDup(InsertChildren(kids, i, p).1)
    decreases EntriesOf(kids), EntriesOf(kids) + SizeOf(kids) + 1, |kids| - i
  {
    if i == |kids| {
    } else if Contains(kids[i], p) {
      EntriesOfUpdate(kids, i, kids[i]);
      var (ok, c) := Insert(kids[i], p, None);
      EntriesOfUpdate(kids, i, c);
      if ok {
        InsertKeepsNoDup(kids[i], p, None);
      } else {
        InsertChildrenKeepsNoDup(kids, i + 1, p);
      }
    } else {
      InsertChildrenKeepsNoDup(kids, i + 1, p);
    }
  }

  lemma {:induction false} PassDownKeepsNoDup(kids: seq<Node>, ps: seq<Point>, i: int)
    requires 0 <= i <= |kids| && EmptyFrom(kids, i) && KidsNoDup(kids) && NoDup(ps)
    ensures KidsNoDup(PassDown(kids, ps, i).0) && NoDup(PassDown(kids, ps, i).1)
    decreases |ps|, |ps| + 1, |kids| - i
  {
    if i < |kids| {
      var (c, rest) := PassDownInto(kids[i], ps, |ps|);
      PassDownIntoKeepsNoDup(kids[i], ps, |ps|);
      PassDownStep(kids, ps, i);
      EntriesOfUpdate(kids, i, c);
      PassDownKeepsNoDup(kids[i := c], rest, i + 1);
    }
  }

  lemma {:induction false} PassDownIntoKeepsNoDup(c: Node, ps: seq<Point>, j: int)
    requires 0 <= j <= |ps| && NoDupTree(c) && NoDup(ps)
    ensures NoDupTree(PassDownInto(c, ps, j).0) && NoDup(PassDownInto(c, ps, j).1)
    decreases Entries(c) + j, j, 0
  {
    if j > 0 {
      var k := j - 1;
      if Contains(c, ps[k]) {
        var (ok, c') := Insert(c, ps[k], None);
        InsertKeepsNoDup(c, ps[k], None);
        if ok {
          NoDupRemoveAt(ps, k);
          PassDownIntoKeepsNoDup(c', ps[..k] + ps[k + 1..], k);
        } else {
          PassDownIntoKeepsNoDup(c', ps, k);
        }
      } else {
        PassDownIntoKeepsNoDup(c, ps, k);
      }
    }
  }

  /** RemovePosition keeps every list duplicate-free; a leaf no longer holds p afterwards. */
  lemma {:induction false} RemoveKeepsNoDup(t: Node, p: Point)
    requires NoDupTree(t)
    ensures NoDupTree(Remove(t, p).1)
    ensures !t.divided ==> p !in Remove(t, p).1.positions
    decreases Size(t), 0
  {
    if !t.divided {
      RemoveFirstNoDup(t.positions, p);
    } else {
      RemoveChildrenKeepsNoDup(t.children, 0, p, 8);
    }
  }

  lemma {:induction false} RemoveChildrenKeepsNoDup(kids: seq<Node>, i: int, p: Point, active: int)
    requires KidsNoDup(kids) && 0 <= i <= |kids|
    ensures KidsNoDup(RemoveChildren(kids, i, p, active).1)
    decreases SizeOf(kids), |kids| - i
  {
    if i < |kids| {
      var active' := if |kids[i].positions| == 0 then active - 1 else active;
      if Contains(kids[i], p) {
        EntriesOfUpdate(kids, i, kids[i]);
        var (ok, c) := Remove(kids[i], p);
        EntriesOfUpdate(kids, i, c);
        RemoveKeepsNoDup(kids[i], p);
        if !ok {
          RemoveChildrenKeepsNoDup(kids[i := c], i + 1, p, active');
        }
      } else {
        RemoveChildrenKeepsNoDup(kids, i + 1, p, active');
      }
    }
  }

  // ---------------------------------------------------------------------
  // The collapse rule

  /** How many of kids[i..] have an empty own list (GetNodesInPartition() == 0). */
  function EmptyOwnCount(kids: seq<Node>, i: int): nat
    requires 0 <= i <= |kids|
    decreases |kids| - i
  {
    if i == |kids| then 0
    else (if |kids[i].positions| == 0 then 1 else 0) + EmptyOwnCount(kids, i + 1)
  }

  lemma {:induction false} EmptyOwnCountUpdate(kids: seq<Node>, i: int, c: Node, j: int)
    requires 0 <= i < j <= |kids|
    ensures EmptyOwnCount(kids[i := c], j) == EmptyOwnCount(kids, j)
    decreases |kids| - j
  {
    if j < |kids| {
      EmptyOwnCountUpdate(kids, i, c, j + 1);
    }
  }

  /** All of kids[i..] have an empty own list exactly when the count reaches its maximum. */
  lemma {:induction false} EmptyOwnCountFull(kids: seq<Node>, i: int)
    requires 0 <= i <= |kids|
    ensures EmptyOwnCount(kids, i) <= |kids| - i
    ensures EmptyOwnCount(kids, i) == |kids| - i <==> forall k :: i <= k < |kids| ==> |kids[k].positions| == 0
    decreases |kids| - i
  {
    if i < |kids| {
      EmptyOwnCountFull(kids, i + 1);
    }
  }

  /**
   * When no child removes the position, the loop of RemovePosition has
   * subtracted one for every child whose own list was empty when it was
   * visited, which is its list before the loop.
   */
  lemma {:induction false} RemoveChildrenCountsEmpty(kids: seq<Node>, i: int, p: Point, active: int)
    requires 0 <= i <= |kids|
    ensures var r := RemoveChildren(kids, i, p, active);
      !r.0 ==> r.2 == active - EmptyOwnCount(kids, i)
    decreases |kids| - i
  {
    if i < |kids| {
      var active' := if |kids[i].positions| == 0 then active - 1 else active;
      if Contains(kids[i], p) {
        var (ok, c) := Remove(kids[i], p);
        if !ok {
          RemoveChildrenCountsEmpty(kids[i := c], i + 1, p, active');
          EmptyOwnCountUpdate(kids, i, c, i + 1);
        }
      } else {
        RemoveChildrenCountsEmpty(kids, i + 1, p, active');
      }
    }
  }

  /**
   * A failed remove on a divided node turns it back into a leaf exactly when
   * all eight children had an empty own list, whatever their subtrees held;
   * the collapsed node keeps only its own list, so every position below it is
   * discarded. A successful remove never collapses the node it returns from.
   */
  lemma CollapseRule(t: Node, p: Point)
    requires t.divided && |t.children| == 8
    ensures var (ok, t') := Remove(t, p);
      && (ok ==> t'.divided)
      && (!ok ==> (!t'.divided <==> forall k :: 0 <= k < 8 ==> |t.children[k].positions| == 0))
      && (!t'.divided ==> t' == t.(children := [], divided := false) && Entries(t') == |t.positions|)
  {
    RemoveChildrenCountsEmpty(t.children, 0, p, 8);
    EmptyOwnCountFull(t.children, 0);
  }

  // ---------------------------------------------------------------------
  // The depth budget

  lemma {:induction false} InsertChildrenAtDepthZero(kids: seq<Node>, i: int, p: Point)
    requires 0 <= i <= |kids| && forall k :: i <= k < |kids| ==> kids[k].depth == 0
    ensures InsertChildren(kids, i, p) == (false, kids)
    decreases |kids| - i
  {
    if i < |kids| {
      InsertChildrenAtDepthZero(kids, i + 1, p);
    }
  }

  lemma {:induction false} PassDownIntoAtDepthZero(c: Node, ps: seq<Point>, j: int)
    requires c.depth == 0 && 0 <= j <= |ps|
    ensures PassDownInto(c, ps, j) == (c, ps)
  {
    if j > 0 {
      PassDownIntoAtDepthZero(c, ps, j - 1);
    }
  }

  lemma {:induction false} PassDownAtDepthZero(kids: seq<Node>, ps: seq<Point>, i: int)
    requires 0 <= i <= |kids| && EmptyFrom(kids, i) && forall k :: i <= k < |kids| ==> kids[k].depth == 0
    ensures PassDown(kids, ps, i) == (kids, ps)
    decreases |kids| - i
  {
    if i < |kids| {
      PassDownIntoAtDepthZero(kids[i], ps, |ps|);
      assert kids[i := kids[i]] == kids;
      PassDownAtDepthZero(kids, ps, i + 1);
    }
  }

  /**
   * The children of a depth-1 node have depth 0 and reject everything: a
   * divided depth-1 node accepts only what its own list already holds, and a
   * depth-1 leaf that overflows keeps all its entries in its own list.
   */
  lemma DepthOneKeepsEntriesInParent(t: Node, p: Point, obj: Option<GameObject>)
    requires WellShaped(t) && t.depth == 1
    ensures t.divided ==> Insert(t, p, obj) == (p in t.positions, t)
    ensures !t.divided && p !in t.positions && t.count >= t.capacity ==>
      Insert(t, p, obj) == (true, t.(children := SubDivide(t), count := 0, divided := true))
  {
    if t.divided {
      InsertChildrenAtDepthZero(t.children, 0, p);
    } else {
      SubDivideAt(t);
      SubDivideIsEmpty(t);
      PassDownAtDepthZero(SubDivide(t), t.positions, 0);
    }
  }

  // ---------------------------------------------------------------------
  // Where PassDownObjects puts each entry

  /** The index of the first of kids[i..] whose cube contains q, or |kids| if none does. */
  function FirstIn(kids: seq<Node>, q: Point, i: int): (k: int)
    requires 0 <= i <= |kids|
    ensures i <= k <= |kids|
    decreases |kids| - i
  {
    if i == |kids| then |kids| else if Contains(kids[i], q) then i else FirstIn(kids, q, i + 1)
  }

  lemma {:induction false} FirstInUpdate(kids: seq<Node>, i: int, c: Node, q: Point, j: int)
    requires 0 <= i < j <= |kids|
    ensures FirstIn(kids[i := c], q, j) == FirstIn(kids, q, j)
    decreases |kids| - j
  {
    if j < |kids| {
      FirstInUpdate(kids, i, c, q, j + 1);
    }
  }

  /** A leaf that has counted every own entry and still has a depth budget. */
  predicate OpenLeaf(c: Node)
  {
    !c.divided && c.children == [] && c.count == |c.positions| && c.depth != 0
  }

  /** The list facts of one taking step: the element at k leaves a duplicate-free list. */
  lemma RemoveAtFacts(ps: seq<Point>, k: int, q: Point)
    requires 0 <= k < |ps| && NoDup(ps)
    ensures var ps1 := ps[..k] + ps[k + 1..];
      && NoDup(ps1) && ps[k] !in ps1 && ps1[..k] == ps[..k] && ps[..k + 1] == ps[..k] + [ps[k]]
      && (q in ps1 <==> q in ps && q != ps[k])
      && multiset(ps1)[q] + (if q == ps[k] then 1 else 0) == multiset(ps)[q]
  {
    NoDupRemoveAt(ps, k);
    RemoveAtCount(ps, k, q);
  }

  /** One taking step of PassDownIntoPlaces: the child stores ps[j-1] and it leaves the list. */
  lemma PassDownIntoTakes(c: Node, ps: seq<Point>, j: int)
    requires 0 < j <= |ps| && OpenLeaf(c) && |c.positions| < c.capacity
    requires ps[j - 1] !in c.positions && Contains(c, ps[j - 1])
    ensures var k := j - 1;
      var c1 := c.(count := c.count + 1, positions := c.positions + [ps[k]]);
      && PassDownInto(c, ps, j) == PassDownInto(c1, ps[..k] + ps[k + 1..], k)
      && OpenLeaf(c1)
  {
    LeafInsertRules(c, ps[j - 1], None);
  }

  /**
   * The inner loop of PassDownObjects on a leaf child with room for every
   * position it is offered: the child takes exactly the offered positions its
   * cube contains, and they leave the parent's list; nothing is lost.
   */
  lemma {:induction false} PassDownIntoPlaces(c: Node, ps: seq<Point>, j: int, q: Point)
    requires 0 <= j <= |ps| && OpenLeaf(c) && |c.positions| + j <= c.capacity && NoDup(ps)
    requires forall x :: x in ps[..j] ==> x !in c.positions
    ensures var (c', ps') := PassDownInto(c, ps, j);
      && OpenLeaf(c') && SameConfig(c, c') && NoDup(ps')
      && (q in c'.positions <==> q in c.positions || (q in ps[..j] && Contains(c, q)))
      && (q in ps' <==> q in ps && !(q in ps[..j] && Contains(c, q)))
      && multiset(c'.positions)[q] + multiset(ps')[q] == multiset(c.positions)[q] + multiset(ps)[q]
    decreases j
  {
    if j > 0 {
      var k := j - 1;
      assert ps[..j] == ps[..k] + [ps[k]];
      if Contains(c, ps[k]) {
        assert ps[k] in ps[..j];
        var c1 := c.(count := c.count + 1, positions := c.positions + [ps[k]]);
        var ps1 := ps[..k] + ps[k + 1..];
        PassDownIntoTakes(c, ps, j);
        RemoveAtFacts(ps, k, q);
        assert forall x :: x in ps1[..k] ==> x !in c1.positions;
        PassDownIntoPlaces(c1, ps1, k, q);
      } else {
        PassDownIntoPlaces(c, ps, k, q);
      }
    }
  }

  /** Children i.. are fresh leaves with room for n positions. */
  predicate FreshFrom(kids: seq<Node>, i: int, n: int)
  {
    forall k :: i <= k < |kids| && 0 <= k ==> OpenLeaf(kids[k]) && kids[k].positions == [] && n <= kids[k].capacity
  }

  lemma FreshIsEmpty(kids: seq<Node>, i: int, n: int)
    requires 0 <= i <= |kids| && FreshFrom(kids, i, n)
    ensures EmptyFrom(kids, i)
  {
    forall k | i <= k < |kids| ensures Entries(kids[k]) == 0 {
      assert kids[k].children == [];
    }
  }

  /** One step of the outer loop keeps the later children fresh. */
  lemma PassDownFreshStep(kids: seq<Node>, ps: seq<Point>, i: int)
    requires 0 <= i < |kids| && FreshFrom(kids, i, |ps|)
    ensures var r := PassDownInto(kids[i], ps, |ps|);
      FreshFrom(kids[i := r.0], i + 1, |r.1|)
  {
    var r := PassDownInto(kids[i], ps, |ps|);
    assert Entries(kids[i]) == 0 by {
      assert kids[i].children == [];
    }
  }

  /** The outer loop of PassDownObjects leaves earlier children alone and later ones open leaves. */
  lemma {:induction false} PassDownFrame(kids: seq<Node>, ps: seq<Point>, i: int)
    requires 0 <= i <= |kids| && FreshFrom(kids, i, |ps|) && NoDup(ps)
    ensures EmptyFrom(kids, i)
    ensures var r := PassDown(kids, ps, i);
      && (forall k :: 0 <= k < i ==> r.0[k] == kids[k])
      && (forall k :: i <= k < |kids| ==> OpenLeaf(r.0[k]) && SameConfig(kids[k], r.0[k]))
    decreases |kids| - i
  {
    FreshIsEmpty(kids, i, |ps|);
    if i < |kids| {
      assert ps[..|ps|] == ps;
      var (c, rest) := PassDownInto(kids[i], ps, |ps|);
      PassDownIntoPlaces(kids[i], ps, |ps|, kids[i].center);
      PassDownStep(kids, ps, i);
      PassDownFreshStep(kids, ps, i);
      PassDownFrame(kids[i := c], rest, i + 1);
    }
  }

  /**
   * The outer loop of PassDownObjects over fresh children with room for all
   * the parent's positions: a position stays in the parent exactly when no
   * child's cube contains it, and nothing is lost.
   */
  lemma {:induction false} PassDownRest(kids: seq<Node>, ps: seq<Point>, i: int, q: Point)
    requires 0 <= i <= |kids| && FreshFrom(kids, i, |ps|) && NoDup(ps)
    ensures EmptyFrom(kids, i)
    ensures var (kids', ps') := PassDown(kids, ps, i);
      && (q in ps' <==> q in ps && FirstIn(kids, q, i) == |kids|)
      && OccOf(kids', q) + multiset(ps')[q] == OccOf(kids, q) + multiset(ps)[q]
    decreases |kids| - i
  {
    FreshIsEmpty(kids, i, |ps|);
    if i < |kids| {
      assert ps[..|ps|] == ps;
      var (c, rest) := PassDownInto(kids[i], ps, |ps|);
      PassDownIntoPlaces(kids[i], ps, |ps|, q);
      PassDownStep(kids, ps, i);
      PassDownFreshStep(kids, ps, i);
      OccOfUpdate(kids, i, c, q);
      assert Occ(c, q) == multiset(c.positions)[q];
      assert Occ(kids[i], q) == multiset(kids[i].positions)[q];
      PassDownRest(kids[i := c], rest, i + 1, q);
      FirstInUpdate(kids, i, c, q, i + 1);
    }
  }

  /** ... and child k ends up holding exactly the positions whose first containing child it is. */
  lemma {:induction false} PassDownChildGets(kids: seq<Node>, ps: seq<Point>, i: int, q: Point, k: int)
    requires 0 <= i <= k < |kids| && FreshFrom(kids, i, |ps|) && NoDup(ps)
    ensures EmptyFrom(kids, i)
    ensures q in PassDown(kids, ps, i).0[k].positions <==> q in ps && FirstIn(kids, q, i) == k
    decreases |kids| - i
  {
    FreshIsEmpty(kids, i, |ps|);
    assert ps[..|ps|] == ps;
    var (c, rest) := PassDownInto(kids[i], ps, |ps|);
    PassDownIntoPlaces(kids[i], ps, |ps|, q);
    PassDownStep(kids, ps, i);
    PassDownFreshStep(kids, ps, i);
    if k == i {
      PassDownFrame(kids[i := c], rest, i + 1);
    } else {
      PassDownChildGets(kids[i := c], rest, i + 1, q, k);
      FirstInUpdate(kids, i, c, q, i + 1);
    }
  }

  lemma {:induction false} FirstInIs(kids: seq<Node>, q: Point, i: int, m: int)
    requires 0 <= i <= m <= |kids|
    requires m < |kids| ==> Contains(kids[m], q)
    requires forall j :: i <= j < m ==> !Contains(kids[j], q)
    ensures FirstIn(kids, q, i) == m
    decreases m - i
  {
    if i < m {
      FirstInIs(kids, q, i + 1, m);
    }
  }

  /**
   * Scanning SubDivide's children in index order, the first cube that contains
   * a point of the parent's cube is its octant, and a point outside the
   * parent's cube is in none.
   */
  lemma FirstInSubDivide(t: Node, q: Point)
    ensures FirstIn(SubDivide(t), q, 0) == if InBox(t.center, t.radius, q) then OctantIndex(t.center, q) else 8
  {
    var kids := SubDivide(t);
    SubDivideAt(t);
    if InBox(t.center, t.radius, q) {
      OctantIndexIsFirstContainingChild(t.center, t.radius, q);
      FirstInIs(kids, q, 0, OctantIndex(t.center, q));
    } else {
      forall j | 0 <= j < 8 ensures !Contains(kids[j], q) {
        if Contains(kids[j], q) {
          ChildBoxInsideParent(t.center, t.radius, j, q);
        }
      }
      FirstInIs(kids, q, 0, 8);
    }
  }

  /**
   * The overflow branch of InsertPosition when the children have a depth
   * budget and room for all the node's entries: every entry inside the node's
   * cube moves to the child of its octant, every entry outside stays in the
   * node's own list, the new position is dropped, and no entry is lost.
   */
  lemma SplitRoutesEntries(t: Node, p: Point, obj: Option<GameObject>, q: Point)
    requires t.depth != 0 && t.depth != 1 && !t.divided && p !in t.positions && t.count >= t.capacity
    requires |t.positions| <= t.capacity && NoDup(t.positions)
    ensures var (ok, t') := Insert(t, p, obj);
      && ok && t'.divided && t'.count == 0 && |t'.children| == 8
      && (forall k :: 0 <= k < 8 ==> OpenLeaf(t'.children[k]))
      && (q in t'.positions <==> q in t.positions && !InBox(t.center, t.radius, q))
      && (forall k :: 0 <= k < 8 ==>
            (q in t'.children[k].positions <==> q in t.positions && InBox(t.center, t.radius, q) && k == OctantIndex(t.center, q)))
      && Occ(t', q) == multiset(t.positions)[q]
  {
    var kids := SubDivide(t);
    SubDivideAt(t);
    SubDivideIsEmpty(t);
    assert FreshFrom(kids, 0, |t.positions|);
    FirstInSubDivide(t, q);
    PassDownFrame(kids, t.positions, 0);
    PassDownRest(kids, t.positions, 0, q);
    forall k | 0 <= k < 8
      ensures q in PassDown(kids, t.positions, 0).0[k].positions <==> q in t.positions && FirstIn(kids, q, 0) == k
    {
      PassDownChildGets(kids, t.positions, 0, q, k);
    }
    EmptyFromOcc(kids, q);
  }

  // ---------------------------------------------------------------------
  // The partition counter

  /**
   * currentNodesInPartition counts a leaf's own list; a divided node's
   * counter is 0 (reset when it split, never touched afterwards).
   */
  predicate Counted(t: Node)
    decreases t
  {
    && (if t.divided then t.count == 0 else t.count == |t.positions|)
    && forall k :: 0 <= k < |t.children| ==> Counted(t.children[k])
  }

  predicate KidsCounted(kids: seq<Node>)
  {
    forall k :: 0 <= k < |kids| ==> Counted(kids[k])
  }

  /** Every insert keeps the counters exact. */
  lemma {:induction false} InsertKeepsCounted(t: Node, p: Point, obj: Option<GameObject>)
    requires Counted(t)
    ensures Counted(Insert(t, p, obj).1)
    decreases Entries(t), Entries(t) + Size(t) + 1, 0
  {
    if t.depth == 0 || p in t.positions {
    } else if t.count < t.capacity && !t.divided {
    } else if !t.divided {
      SubDivideIsEmpty(t);
      SubDivideAt(t);
      PassDownKeepsCounted(SubDivide(t), t.positions, 0);
    } else {
      InsertChildrenKeepsCounted(t.children, 0, p);
    }
  }

  lemma {:induction false} InsertChildrenKeepsCounted(kids: seq<Node>, i: int, p: Point)
    requires KidsCounted(kids) && 0 <= i <= |kids|
    ensures KidsCounted(InsertChildren(kids, i, p).1)
    decreases EntriesOf(kids), EntriesOf(kids) + SizeOf(kids) + 1, |kids| - i
  {
    if i == |kids| {
    } else if Contains(kids[i], p) {
      EntriesOfUpdate(kids, i, kids[i]);
      var (ok, c) := Insert(kids[i], p, None);
      EntriesOfUpdate(kids, i, c);
      if ok {
        InsertKeepsCounted(kids[i], p, None);
      } else {
        InsertChildrenKeepsCounted(kids, i + 1, p);
      }
    } else {
      InsertChildrenKeepsCounted(kids, i + 1, p);
    }
  }

  lemma {:induction false} PassDownKeepsCounted(kids: seq<Node>, ps: seq<Point>, i: int)
    requires 0 <= i <= |kids| && EmptyFrom(kids, i) && KidsCounted(kids)
    ensures KidsCounted(PassDown(kids, ps, i).0)
    decreases |ps|, |ps| + 1, |kids| - i
  {
    if i < |kids| {
      var (c, rest) := PassDownInto(kids[i], ps, |ps|);
      PassDownIntoKeepsCounted(kids[i], ps, |ps|);
      PassDownStep(kids, ps, i);
      EntriesOfUpdate(kids, i, c);
      PassDownKeepsCounted(kids[i := c], rest, i + 1);
    }
  }

  lemma {:induction false} PassDownIntoKeepsCounted(c: Node, ps: seq<Point>, j: int)
    requires 0 <= j <= |ps| && Counted(c)
    ensures Counted(PassDownInto(c, ps, j).0)
    decreases Entries(c) + j, j, 0
  {
    if j > 0 {
      var k := j - 1;
      if Contains(c, ps[k]) {
        var (ok, c') := Insert(c, ps[k], None);
        InsertKeepsCounted(c, ps[k], None);
        if ok {
          PassDownIntoKeepsCounted(c', ps[..k] + ps[k + 1..], k);
        } else {
          PassDownIntoKeepsCounted(c', ps, k);
        }
      } else {
        PassDownIntoKeepsCounted(c, ps, k);
      }
    }
  }

  /** No divided node keeps entries of its own. */
  predicate DividedEmpty(t: Node)
    decreases t
  {
    && (t.divided ==> t.positions == [])
    && forall k :: 0 <= k < |t.children| ==> DividedEmpty(t.children[k])
  }

  predicate KidsDividedEmpty(kids: seq<Node>)
  {
    forall k :: 0 <= k < |kids| ==> DividedEmpty(kids[k])
  }

  /**
   * A remove keeps the counters exact as long as no divided node has kept
   * entries of its own. A collapse turns such a node into a leaf whose
   * counter is still 0, so the condition cannot be dropped; see
   * CollapseKeepsStaleCounter.
   */
  lemma {:induction false} RemoveKeepsCounted(t: Node, p: Point)
    requires Counted(t) && DividedEmpty(t)
    ensures Counted(Remove(t, p).1) && DividedEmpty(Remove(t, p).1)
    decreases Size(t), 0
  {
    if !t.divided {
      if p in t.positions {
        RemoveFirstMultiset(t.positions, p);
        assert |RemoveFirst(t.positions, p)| == |t.positions| - 1 by {
          assert |multiset(RemoveFirst(t.positions, p))| + 1 == |multiset(t.positions)|;
        }
      }
    } else {
      RemoveChildrenKeepsCounted(t.children, 0, p, 8);
    }
  }

  lemma {:induction false} RemoveChildrenKeepsCounted(kids: seq<Node>, i: int, p: Point, active: int)
    requires KidsCounted(kids) && KidsDividedEmpty(kids) && 0 <= i <= |kids|
    ensures KidsCounted(RemoveChildren(kids, i, p, active).1) && KidsDividedEmpty(RemoveChildren(kids, i, p, active).1)
    decreases SizeOf(kids), |kids| - i
  {
    if i < |kids| {
      var active' := if |kids[i].positions| == 0 then active - 1 else active;
      if Contains(kids[i], p) {
        EntriesOfUpdate(kids, i, kids[i]);
        var (ok, c) := Remove(kids[i], p);
        EntriesOfUpdate(kids, i, c);
        RemoveKeepsCounted(kids[i], p);
        if !ok {
          RemoveChildrenKeepsCounted(kids[i := c], i + 1, p, active');
        }
      } else {
        RemoveChildrenKeepsCounted(kids, i + 1, p, active');
      }
    }
  }

  /**
   * A divided node that kept entries of its own and collapses becomes a leaf
   * whose counter still reads 0 while its list is not empty; later inserts
   * then append past maxNodesInPartition before it splits again.
   */
  lemma CollapseKeepsStaleCounter(t: Node, p: Point)
    requires Counted(t) && t.divided && |t.children| == 8 && t.positions != []
    requires forall k :: 0 <= k < 8 ==> |t.children[k].positions| == 0
    requires !Remove(t, p).0
    ensures !Remove(t, p).1.divided && !Counted(Remove(t, p).1)
  {
    CollapseRule(t, p);
  }

  /** The inner loop of PassDownObjects moves nothing the child's cube does not contain. */
  lemma {:induction false} PassDownIntoNoneContained(c: Node, ps: seq<Point>, j: int)
    requires 0 <= j <= |ps| && forall m :: 0 <= m < j ==> !Contains(c, ps[m])
    ensures PassDownInto(c, ps, j) == (c, ps)
    decreases j
  {
    if j > 0 {
      PassDownIntoNoneContained(c, ps, j - 1);
    }
  }

  /** PassDownObjects leaves every position no child's cube contains in the parent. */
  lemma {:induction false} PassDownNoneContained(kids: seq<Node>, ps: seq<Point>, i: int)
    requires 0 <= i <= |kids| && EmptyFrom(kids, i)
    requires forall k, m :: i <= k < |kids| && 0 <= m < |ps| ==> !Contains(kids[k], ps[m])
    ensures PassDown(kids, ps, i) == (kids, ps)
    decreases |kids| - i
  {
    if i < |kids| {
      PassDownIntoNoneContained(kids[i], ps, |ps|);
      PassDownStep(kids, ps, i);
      assert kids[i := kids[i]] == kids;
      PassDownNoneContained(kids, ps, i + 1);
    }
  }

  /**
   * Over children that are leaves with empty lists the remove loop fails and
   * counts every one of them as empty, so their parent collapses.
   */
  lemma {:induction false} RemoveChildrenFromEmptyLeaves(kids: seq<Node>, i: int, p: Point, active: int)
    requires 0 <= i <= |kids|
    requires forall k :: i <= k < |kids| ==> !kids[k].divided && kids[k].positions == []
    ensures RemoveChildren(kids, i, p, active) == (false, kids, active - (|kids| - i))
    decreases |kids| - i
  {
    if i < |kids| {
      assert kids[i := kids[i]] == kids;
      RemoveChildrenFromEmptyLeaves(kids, i + 1, p, active - 1);
    }
  }

  /**
   * The first half of the run in StaleCounterLosesStoredPosition: with
   * capacity 1 and depth 3 around the origin, insert a (outside the cube),
   * then b (the split keeps a in the divided node and drops b); a failed
   * remove collapses the node with its counter at 0, and removing a takes the
   * counter to -1.
   */
  lemma StaleCounterAfterCollapse()
    ensures
      var a := Point(10.0, 10.0, 10.0);
      var b := Point(1.0, 1.0, 1.0);
      var r1 := Insert(Fresh(Point(0.0, 0.0, 0.0), 4.0, 1, 3, 3), a, None);
      var r2 := Insert(r1.1, b, None);
      var r3 := Remove(r2.1, Point(-1.0, -1.0, -1.0));
      var r4 := Remove(r3.1, a);
      && r1.0 && r2.0 && r2.1.divided && r2.1.positions == [a] && Occ(r2.1, b) == 0
      && !r3.0 && !r3.1.divided && r3.1.positions == [a] && r3.1.count == 0
      && r4 == (true, Node(Point(0.0, 0.0, 0.0), 4.0, 1, -1, 3, 3, [], [], false, []))
  {
    var a := Point(10.0, 10.0, 10.0);
    var b := Point(1.0, 1.0, 1.0);
    var c := Point(-1.0, -1.0, -1.0);
    var t0 := Fresh(Point(0.0, 0.0, 0.0), 4.0, 1, 3, 3);
    var t1 := t0.(count := 1, positions := [a]);
    LeafInsertRules(t0, a, None);
    assert t0.positions + [a] == [a];
    assert Insert(t0, a, None) == (true, t1);

    // The split keeps a, which no child cube contains, in the divided node.
    var kids := SubDivide(t1);
    SubDivideAt(t1);
    SubDivideIsEmpty(t1);
    PassDownNoneContained(kids, [a], 0);
    var t2 := t1.(children := kids, count := 0, divided := true);
    assert Insert(t1, b, None) == (true, t2);
    EmptyFromOcc(kids, b);

    // No child has a position of its own: the failed remove collapses t2.
    RemoveChildrenFromEmptyLeaves(kids, 0, c, 8);
    var t3 := t2.(children := [], divided := false);
    assert Remove(t2, c) == (false, t3);
    assert RemoveFirst([a], a) == [];
  }

  /**
   * The child that loses a position in StaleCounterLosesStoredPosition: a
   * fresh child with capacity 1 offered (1, 1, 1) and (2, 2, 2) takes the
   * second, splits when the first arrives, returns true for it and drops it.
   */
  lemma OverfullChildDropsPosition()
    ensures
      var b := Point(1.0, 1.0, 1.0);
      var r := PassDownInto(Fresh(Point(2.0, 2.0, 2.0), 2.0, 1, 2, 3), [b, Point(2.0, 2.0, 2.0)], 2);
      r.1 == [] && Occ(r.0, b) == 0
  {
    var b := Point(1.0, 1.0, 1.0);
    var d := Point(2.0, 2.0, 2.0);
    var k0 := Fresh(d, 2.0, 1, 2, 3);
    var k0a := k0.(count := 1, positions := [d]);
    LeafInsertRules(k0, d, None);
    assert k0.positions + [d] == [d];
    assert Insert(k0, d, None) == (true, k0a);
    assert [b, d][..1] + [b, d][2..] == [b];
    assert PassDownInto(k0, [b, d], 2) == PassDownInto(k0a, [b], 1);

    var gk := SubDivide(k0a);
    SubDivideAt(k0a);
    SubDivideIsEmpty(k0a);
    var g0a := gk[0].(count := 1, positions := [d]);
    LeafInsertRules(gk[0], d, None);
    assert gk[0].positions + [d] == [d];
    assert Insert(gk[0], d, None) == (true, g0a);
    assert [d][..0] + [d][1..] == [];
    assert PassDownInto(gk[0], [d], 1) == (g0a, []);
    PassDownStep(gk, [d], 0);
    PassDownNoneContained(gk[0 := g0a], [], 1);
    var k0b := k0a.(children := gk[0 := g0a], positions := [], count := 0, divided := true);
    assert Insert(k0a, b, None) == (true, k0b);
    assert [b][..0] + [b][1..] == [];
    assert PassDownInto(k0, [b, d], 2) == (k0b, []);

    EmptyFromOcc(gk, b);
    OccOfUpdate(gk, 0, g0a, b);
    assert Occ(g0a, b) == 0;
  }

  /**
   * From the leaf with counter -1 and an empty list, inserting b and then d
   * stores both without a split: the counter reaches only 1, so the leaf holds
   * two positions with capacity 1.
   */
  lemma StaleLeafGrowsPastCapacity()
    ensures
      var b := Point(1.0, 1.0, 1.0);
      var d := Point(2.0, 2.0, 2.0);
      var r5 := Insert(Node(Point(0.0, 0.0, 0.0), 4.0, 1, -1, 3, 3, [], [], false, []), b, None);
      var r6 := Insert(r5.1, d, None);
      && r5.0 && r6 == (true, Node(Point(0.0, 0.0, 0.0), 4.0, 1, 1, 3, 3, [b, d], [], false, []))
      && Occ(r6.1, b) == 1
  {
    var b := Point(1.0, 1.0, 1.0);
    var d := Point(2.0, 2.0, 2.0);
    var t4 := Node(Point(0.0, 0.0, 0.0), 4.0, 1, -1, 3, 3, [], [], false, []);
    var t5 := t4.(count := 0, positions := [b]);
    LeafInsertRules(t4, b, None);
    assert t4.positions + [b] == [b];
    assert Insert(t4, b, None) == (true, t5);
    var t6 := t5.(count := 1, positions := [b, d]);
    LeafInsertRules(t5, d, None);
    assert t5.positions + [d] == [b, d];
    assert Insert(t5, d, None) == (true, t6);
    assert multiset([b, d])[b] == 1;
  }

  /**
   * Inserting e into that overfull leaf splits it, and child 0, offered d and
   * b, drops b: the insert returns true and b is held nowhere.
   */
  lemma OverfullLeafSplitLosesPosition()
    ensures
      var b := Point(1.0, 1.0, 1.0);
      var r7 := Insert(Node(Point(0.0, 0.0, 0.0), 4.0, 1, 1, 3, 3, [b, Point(2.0, 2.0, 2.0)], [], false, []),
                       Point(3.0, 3.0, 3.0), None);
      r7.0 && Occ(r7.1, b) == 0
  {
    var b := Point(1.0, 1.0, 1.0);
    var d := Point(2.0, 2.0, 2.0);
    var e := Point(3.0, 3.0, 3.0);
    var t6 := Node(Point(0.0, 0.0, 0.0), 4.0, 1, 1, 3, 3, [b, d], [], false, []);
    // The split of t6: child 0 drops b, and no other child holds anything.
    var kids := SubDivide(t6);
    SubDivideAt(t6);
    SubDivideIsEmpty(t6);
    OverfullChildDropsPosition();
    var k0b := PassDownInto(kids[0], [b, d], 2).0;
    PassDownStep(kids, [b, d], 0);
    PassDownNoneContained(kids[0 := k0b], [], 1);
    var t7 := t6.(children := kids[0 := k0b], positions := [], count := 0, divided := true);
    assert Insert(t6, e, None) == (true, t7);
    EmptyFromOcc(kids, b);
    OccOfUpdate(kids, 0, k0b, b);
  }

  /**
   * A stale counter lets a leaf grow past maxNodesInPartition, and its next
   * split can then lose a position it had stored: a child that fills up during
   * PassDownObjects splits in turn, returns true for the position that made it
   * split and drops it, and the parent removes that position from its own list.
   * The run joins StaleCounterAfterCollapse, StaleLeafGrowsPastCapacity and
   * OverfullLeafSplitLosesPosition:
   * every insert returns true, b is stored after the sixth step and held
   * nowhere after the seventh.
   */
  lemma StaleCounterLosesStoredPosition()
    ensures
      var a := Point(10.0, 10.0, 10.0);
      var b := Point(1.0, 1.0, 1.0);
      var r1 := Insert(Fresh(Point(0.0, 0.0, 0.0), 4.0, 1, 3, 3), a, None);
      var r2 := Insert(r1.1, b, None);
      var r3 := Remove(r2.1, Point(-1.0, -1.0, -1.0));
      var r4 := Remove(r3.1, a);
      var r5 := Insert(r4.1, b, None);
      var r6 := Insert(r5.1, Point(2.0, 2.0, 2.0), None);
      var r7 := Insert(r6.1, Point(3.0, 3.0, 3.0), None);
      && r1.0 && r2.0 && !r3.0 && !r3.1.divided && r4.0 && r4.1.count == -1
      && r5.0 && r6.0 && Occ(r6.1, b) == 1 && r7.0 && Occ(r7.1, b) == 0
  {
    StaleCounterAfterCollapse();
    StaleLeafGrowsPastCapacity();
    OverfullLeafSplitLosesPosition();
  }

  // ---------------------------------------------------------------------
  // The leaf rules of InsertPosition

  /**
   * The first three branches of InsertPosition: depth 0 rejects, a position
   * already in the node's own list is accepted without change, and a leaf
   * with room appends it (and obj when there is one) and counts it.
   */
  lemma LeafInsertRules(t: Node, p: Point, obj: Option<GameObject>)
    ensures t.depth == 0 ==> Insert(t, p, obj) == (false, t)
    ensures t.depth != 0 && p in t.positions ==> Insert(t, p, obj) == (true, t)
    ensures t.depth != 0 && p !in t.positions && t.count < t.capacity && !t.divided ==>
      var r := Insert(t, p, obj).1;
      && Insert(t, p, obj).0
      && r.count == t.count + 1 && r.positions == t.positions + [p]
      && (obj.Some? ==> r.objects == t.objects + [obj.value])
      && (obj.None? ==> r.objects == t.objects)
      && r.children == t.children && r.divided == t.divided
  {
  }

  /**
   * The leaf branch of RemovePosition: it succeeds exactly when p is in the
   * node's list, then takes out one copy of p and lowers the counter, leaving
   * everything else as it was; a failed leaf remove changes nothing.
   */
  lemma LeafRemoveRules(t: Node, p: Point)
    requires !t.divided
    ensures Remove(t, p).0 <==> p in t.positions
    ensures Remove(t, p).0 ==>
      var r := Remove(t, p).1;
      && multiset(r.positions) + multiset{p} == multiset(t.positions)
      && r == t.(count := t.count - 1, positions := r.positions)
    ensures !Remove(t, p).0 ==> Remove(t, p).1 == t
  {
    RemoveFirstMultiset(t.positions, p);
  }

  // ---------------------------------------------------------------------
  // Which child takes a position

  /** A child that contains p and accepts it. */
  predicate Accepts(c: Node, p: Point)
  {
    Contains(c, p) && Insert(c, p, None).0
  }

  /** The first child from i on that contains p and accepts it, or |kids|. */
  function FirstAccepting(kids: seq<Node>, i: int, p: Point): (k: int)
    requires 0 <= i <= |kids|
    ensures i <= k <= |kids|
    ensures k < |kids| ==> Accepts(kids[k], p)
    ensures forall m :: i <= m < k ==> !Accepts(kids[m], p)
    decreases |kids| - i
  {
    if i == |kids| || Accepts(kids[i], p) then i else FirstAccepting(kids, i + 1, p)
  }

  /**
   * The divided branch of InsertPosition hands the position to the first
   * child, in index order, that contains and accepts it; only that child
   * changes, and when no child accepts the call returns false.
   */
  lemma {:induction false} InsertChildrenTakesFirst(kids: seq<Node>, i: int, p: Point)
    requires 0 <= i <= |kids|
    ensures var k := FirstAccepting(kids, i, p);
      InsertChildren(kids, i, p) == if k < |kids| then (true, kids[k := Insert(kids[k], p, None).1]) else (false, kids)
    decreases |kids| - i
  {
    if i < |kids| && !Accepts(kids[i], p) {
      InsertChildrenTakesFirst(kids, i + 1, p);
    }
  }

  /**
   * The divided branch of RemovePosition succeeds exactly when some child
   * from i on contains the position and removes it. (A child that fails may
   * still change by collapsing, so the children before it are not kept.)
   */
  lemma {:induction false} RemoveChildrenSucceedsIff(kids: seq<Node>, i: int, p: Point, active: int)
    requires 0 <= i <= |kids|
    ensures RemoveChildren(kids, i, p, active).0 <==>
      exists k :: i <= k < |kids| && Contains(kids[k], p) && Remove(kids[k], p).0
    decreases |kids| - i
  {
    if i < |kids| {
      var active' := if |kids[i].positions| == 0 then active - 1 else active;
      if Contains(kids[i], p) {
        var (ok, c) := Remove(kids[i], p);
        if !ok {
          RemoveChildrenSucceedsIff(kids[i := c], i + 1, p, active');
          assert forall k :: i < k < |kids| ==> kids[i := c][k] == kids[k];
        }
      } else {
        RemoveChildrenSucceedsIff(kids, i + 1, p, active');
      }
    }
  }

  // ---------------------------------------------------------------------
  // The GameObject payload

  /** No node of the subtree holds a GameObject. */
  predicate NoObjects(t: Node)
    decreases t
  {
    t.objects == [] && forall k :: 0 <= k < |t.children| ==> NoObjects(t.children[k])
  }

  predicate KidsNoObjects(kids: seq<Node>)
  {
    forall k :: 0 <= k < |kids| ==> NoObjects(kids[k])
  }

  /**
   * GameObjects are kept by the node InsertPosition is called on only: below
   * it no node ever holds one, because the divided branch and pass-down
   * forward the position alone. The node's own list only grows, by obj.
   */
  lemma PayloadStaysAtTop(t: Node, p: Point, obj: Option<GameObject>)
    requires KidsNoObjects(t.children)
    ensures var r := Insert(t, p, obj).1;
      && KidsNoObjects(r.children)
      && (r.objects == t.objects || (obj.Some? && r.objects == t.objects + [obj.value]))
  {
    if t.depth != 0 && p !in t.positions && !(t.count < t.capacity && !t.divided) {
      if !t.divided {
        SubDivideIsEmpty(t);
        SubDivideAt(t);
        PassDownKeepsNoObjects(SubDivide(t), t.positions, 0);
      } else {
        InsertChildrenKeepsNoObjects(t.children, 0, p);
      }
    }
  }

  lemma {:induction false} InsertKeepsNoObjects(t: Node, p: Point)
    requires NoObjects(t)
    ensures NoObjects(Insert(t, p, None).1)
    decreases Entries(t), Entries(t) + Size(t) + 1, 0
  {
    if t.depth == 0 || p in t.positions {
    } else if t.count < t.capacity && !t.divided {
    } else if !t.divided {
      SubDivideIsEmpty(t);
      SubDivideAt(t);
      PassDownKeepsNoObjects(SubDivide(t), t.positions, 0);
    } else {
      InsertChildrenKeepsNoObjects(t.children, 0, p);
    }
  }

  lemma {:induction false} InsertChildrenKeepsNoObjects(kids: seq<Node>, i: int, p: Point)
    requires KidsNoObjects(kids) && 0 <= i <= |kids|
    ensures KidsNoObjects(InsertChildren(kids, i, p).1)
    decreases EntriesOf(kids), EntriesOf(kids) + SizeOf(kids) + 1, |kids| - i
  {
    if i == |kids| {
    } else if Contains(kids[i], p) {
      EntriesOfUpdate(kids, i, kids[i]);
      var (ok, c) := Insert(kids[i], p, None);
      EntriesOfUpdate(kids, i, c);
      if ok {
        InsertKeepsNoObjects(kids[i], p);
      } else {
        InsertChildrenKeepsNoObjects(kids, i + 1, p);
      }
    } else {
      InsertChildrenKeepsNoObjects(kids, i + 1, p);
    }
  }

  lemma {:induction false} PassDownKeepsNoObjects(kids: seq<Node>, ps: seq<Point>, i: int)
    requires 0 <= i <= |kids| && EmptyFrom(kids, i) && KidsNoObjects(kids)
    ensures KidsNoObjects(PassDown(kids, ps, i).0)
    decreases |ps|, |ps| + 1, |kids| - i
  {
    if i < |kids| {
      var (c, rest) := PassDownInto(kids[i], ps, |ps|);
      PassDownIntoKeepsNoObjects(kids[i], ps, |ps|);
      PassDownStep(kids, ps, i);
      EntriesOfUpdate(kids, i, c);
      PassDownKeepsNoObjects(kids[i := c], rest, i + 1);
    }
  }

  lemma {:induction false} PassDownIntoKeepsNoObjects(c: Node, ps: seq<Point>, j: int)
    requires 0 <= j <= |ps| && NoObjects(c)
    ensures NoObjects(PassDownInto(c, ps, j).0)
    decreases Entries(c) + j, j, 0
  {
    if j > 0 {
      var k := j - 1;
      if Contains(c, ps[k]) {
        var (ok, c') := Insert(c, ps[k], None);
        InsertKeepsNoObjects(c, ps[k]);
        if ok {
          PassDownIntoKeepsNoObjects(c', ps[..k] + ps[k + 1..], k);
        } else {
          PassDownIntoKeepsNoObjects(c', ps, k);
        }
      } else {
        PassDownIntoKeepsNoObjects(c, ps, k);
      }
    }
  }

  /** RemovePosition never touches a GameObject list, at any node. */
  lemma {:induction false} RemoveKeepsObjects(t: Node, p: Point)
    ensures Remove(t, p).1.objects == t.objects
    ensures NoObjects(t) ==> NoObjects(Remove(t, p).1)
    decreases Size(t), 0
  {
    if t.divided {
      RemoveChildrenKeepsNoObjects(t.children, 0, p, 8);
    }
  }

  lemma {:induction false} RemoveChildrenKeepsNoObjects(kids: seq<Node>, i: int, p: Point, active: int)
    requires 0 <= i <= |kids|
    ensures KidsNoObjects(kids) ==> KidsNoObjects(RemoveChildren(kids, i, p, active).1)
    decreases SizeOf(kids), |kids| - i
  {
    if i < |kids| {
      var active' := if |kids[i].positions| == 0 then active - 1 else active;
      if Contains(kids[i], p) {
        EntriesOfUpdate(kids, i, kids[i]);
        var (ok, c) := Remove(kids[i], p);
        EntriesOfUpdate(kids, i, c);
        RemoveKeepsObjects(kids[i], p);
        if !ok {
          RemoveChildrenKeepsNoObjects(kids[i := c], i + 1, p, active');
        }
      } else {
        RemoveChildrenKeepsNoObjects(kids, i + 1, p, active');
      }
    }
  }
}
