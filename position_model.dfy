/**
 * Functional model of Octree.OctreeNode, the position-only octree node: one
 * datatype value per node and one recursive function per branch-structured
 * operation. Each function follows the C# method body branch by branch; the
 * imperative classes in PositionOctree are proved to compute exactly these.
 */
module PositionModel {
  import opened Geometry
  import opened Wrappers

  /** An engine GameObject, seen only as an identity. */
  datatype GameObject = GameObject(id: nat)

  /**
   * The state of one OctreeNode. `children` is empty while the node's children
   * array holds only nulls and lists the eight child states once it is divided.
   */
  datatype Node = Node(
    center: Point,
    radius: real,
    capacity: int,      // maxNodesInPartition
    count: int,         // currentNodesInPartition
    depth: int,         // currentDepth
    maxDepth: int,
    positions: seq<Point>,
    objects: seq<GameObject>,
    divided: bool,      // hasBeenDivided
    children: seq<Node>)

  /** A node as `new OctreeNode()` followed by the field assignments of its creator. */
  function Fresh(center: Point, radius: real, capacity: int, depth: int, maxDepth: int): Node
  {
    Node(center, radius, capacity, 0, depth, maxDepth, [], [], false, [])
  }

  /** Number of positions stored in a subtree (the node's own list and all below). */
  function Entries(t: Node): nat
    decreases t
  {
    |t.positions| + EntriesOf(t.children)
  }

  function EntriesOf(s: seq<Node>): nat
    decreases s
  {
    if s == [] then 0 else EntriesOf(s[..|s| - 1]) + Entries(s[|s| - 1])
  }

  /** Number of nodes in a subtree. */
  function Size(t: Node): nat
    decreases t
  {
    1 + SizeOf(t.children)
  }

  function SizeOf(s: seq<Node>): nat
    decreases s
  {
    if s == [] then 0 else SizeOf(s[..|s| - 1]) + Size(s[|s| - 1])
  }

  lemma EntriesOfUpdate(s: seq<Node>, i: int, c: Node)
    requires 0 <= i < |s|
    ensures EntriesOf(s[i := c]) == EntriesOf(s) - Entries(s[i]) + Entries(c)
    ensures SizeOf(s[i := c]) == SizeOf(s) - Size(s[i]) + Size(c)
    ensures Entries(s[i]) <= EntriesOf(s) && Size(s[i]) <= SizeOf(s)
    decreases |s|
  {
    if i < |s| - 1 {
      assert s[i := c][..|s| - 1] == s[..|s| - 1][i := c];
      EntriesOfUpdate(s[..|s| - 1], i, c);
    } else {
      assert s[i := c][..|s| - 1] == s[..|s| - 1];
    }
  }

  /** List<Vector3>.Remove: deletes the first occurrence, if any. */
  function RemoveFirst(s: seq<Point>, p: Point): seq<Point>
  {
    if s == [] then []
    else if s[0] == p then s[1..]
    else [s[0]] + RemoveFirst(s[1..], p)
  }

  /** SubDivide: eight fresh children in the fixed sign order, radius halved, depth one less. */
  function SubDivide(t: Node): (kids: seq<Node>)
    ensures |kids| == 8
  {
    var r := t.radius / 2.0;
    [ Fresh(ChildCenter(t.center, t.radius, 0), r, t.capacity, t.depth - 1, t.maxDepth),
      Fresh(ChildCenter(t.center, t.radius, 1), r, t.capacity, t.depth - 1, t.maxDepth),
      Fresh(ChildCenter(t.center, t.radius, 2), r, t.capacity, t.depth - 1, t.maxDepth),
      Fresh(ChildCenter(t.center, t.radius, 3), r, t.capacity, t.depth - 1, t.maxDepth),
      Fresh(ChildCenter(t.center, t.radius, 4), r, t.capacity, t.depth - 1, t.maxDepth),
      Fresh(ChildCenter(t.center, t.radius, 5), r, t.capacity, t.depth - 1, t.maxDepth),
      Fresh(ChildCenter(t.center, t.radius, 6), r, t.capacity, t.depth - 1, t.maxDepth),
      Fresh(ChildCenter(t.center, t.radius, 7), r, t.capacity, t.depth - 1, t.maxDepth) ]
  }

  lemma SubDivideAt(t: Node)
    ensures forall k :: 0 <= k < 8 ==>
      SubDivide(t)[k] == Fresh(ChildCenter(t.center, t.radius, k), t.radius / 2.0, t.capacity, t.depth - 1, t.maxDepth)
  {
  }

  /** Children from, which have not yet been offered any position, hold none. */
  predicate EmptyFrom(kids: seq<Node>, from: int)
  {
    forall k :: from <= k < |kids| && 0 <= k ==> Entries(kids[k]) == 0
  }

  lemma EntriesOfZero(s: seq<Node>)
    requires EmptyFrom(s, 0)
    ensures EntriesOf(s) == 0
    decreases |s|
  {
    if s != [] {
      EntriesOfZero(s[..|s| - 1]);
    }
  }

  lemma SubDivideIsEmpty(t: Node)
    ensures EmptyFrom(SubDivide(t), 0)
    ensures EntriesOf(SubDivide(t)) == 0
  {
    EntriesOfZero(SubDivide(t));
  }

  predicate Contains(t: Node, p: Point)
  {
    InBox(t.center, t.radius, p)
  }

  /**
   * InsertPosition(position, obj). The result pairs the returned flag with the
   * new state. A failed insert never changes anything, and an insert adds at
   * most one position to the subtree.
   */
  function Insert(t: Node, p: Point, obj: Option<GameObject>): (r: (bool, Node))
    ensures !r.0 ==> r.1 == t
    ensures Entries(r.1) <= Entries(t) + 1
    decreases Entries(t), Entries(t) + Size(t) + 1, 0
  {
    if t.depth == 0 then (false, t)
    else if p in t.positions then (true, t)
    else if t.count < t.capacity && !t.divided then
      (true, t.(count := t.count + 1,
                positions := t.positions + [p],
                objects := if obj.Some? then t.objects + [obj.value] else t.objects))
    else if !t.divided then
      SubDivideIsEmpty(t);
      var (kids, rest) := PassDown(SubDivide(t), t.positions, 0);
      (true, t.(children := kids, positions := rest, count := 0, divided := true))
    else
      var (ok, kids) := InsertChildren(t.children, 0, p);
      (ok, t.(children := kids))
  }

  /**
   * The divided branch of InsertPosition: children i.. are tried in index order,
   * each only if its cube contains p, and only the position is forwarded.
   */
  function InsertChildren(kids: seq<Node>, i: int, p: Point): (r: (bool, seq<Node>))
    requires 0 <= i <= |kids|
    ensures |r.1| == |kids|
    ensures !r.0 ==> r.1 == kids
    ensures EntriesOf(r.1) <= EntriesOf(kids) + 1
    decreases EntriesOf(kids), EntriesOf(kids) + SizeOf(kids) + 1, |kids| - i
  {
    if i == |kids| then (false, kids)
    else if Contains(kids[i], p) then
      EntriesOfUpdate(kids, i, kids[i]);
      var (ok, c) := Insert(kids[i], p, None);
      EntriesOfUpdate(kids, i, c);
      if ok then (true, kids[i := c]) else InsertChildren(kids, i + 1, p)
    else InsertChildren(kids, i + 1, p)
  }

  /**
   * PassDownObjects: children are visited in index order; for each, the parent's
   * remaining positions are scanned from the last to the first, and each one the
   * child contains and accepts is removed from the parent (RemoveAt).
   */
  function PassDown(kids: seq<Node>, ps: seq<Point>, i: int): (r: (seq<Node>, seq<Point>))
    requires 0 <= i <= |kids|
    requires EmptyFrom(kids, i)
    ensures |r.0| == |kids|
    ensures EntriesOf(r.0) + |r.1| <= EntriesOf(kids) + |ps|
    decreases |ps|, |ps| + 1, |kids| - i
  {
    if i == |kids| then (kids, ps)
    else
      var (c, rest) := PassDownInto(kids[i], ps, |ps|);
      EntriesOfUpdate(kids, i, c);
      PassDown(kids[i := c], rest, i + 1)
  }

  /** One iteration of the outer loop of PassDownObjects. */
  lemma PassDownStep(kids: seq<Node>, ps: seq<Point>, i: int)
    requires 0 <= i < |kids|
    requires EmptyFrom(kids, i)
    ensures var r := PassDownInto(kids[i], ps, |ps|);
      EmptyFrom(kids[i := r.0], i + 1) && PassDown(kids, ps, i) == PassDown(kids[i := r.0], r.1, i + 1)
  {
  }

  /** The inner loop of PassDownObjects for one child, over positions j-1 down to 0. */
  function PassDownInto(c: Node, ps: seq<Point>, j: int): (r: (Node, seq<Point>))
    requires 0 <= j <= |ps|
    ensures Entries(r.0) + |r.1| <= Entries(c) + |ps|
    decreases Entries(c) + j, j, 0
  {
    if j == 0 then (c, ps)
    else
      var k := j - 1;
      if Contains(c, ps[k]) then
        var (ok, c') := Insert(c, ps[k], None);
        if ok then PassDownInto(c', ps[..k] + ps[k + 1..], k)
        else PassDownInto(c', ps, k)
      else PassDownInto(c, ps, k)
  }

  /**
   * RemovePosition(position). On a divided node every child whose own list is
   * empty is counted before it is probed; when no child removes the position and
   * all eight counted empty, the children are dropped and the node is a leaf again.
   */
  function Remove(t: Node, p: Point): (r: (bool, Node))
    ensures Size(r.1) <= Size(t)
    decreases Size(t), 0
  {
    if !t.divided then
      if p in t.positions then (true, t.(count := t.count - 1, positions := RemoveFirst(t.positions, p)))
      else (false, t)
    else
      var (ok, kids, active) := RemoveChildren(t.children, 0, p, 8);
      if ok then (true, t.(children := kids))
      else if active == 0 then (false, t.(children := [], divided := false))
      else (false, t.(children := kids))
  }

  /** The loop of the divided branch of RemovePosition, from child i with `active` still counted. */
  function RemoveChildren(kids: seq<Node>, i: int, p: Point, active: int): (r: (bool, seq<Node>, int))
    requires 0 <= i <= |kids|
    ensures |r.1| == |kids|
    ensures SizeOf(r.1) <= SizeOf(kids)
    decreases SizeOf(kids), |kids| - i
  {
    if i == |kids| then (false, kids, active)
    else
      var active' := if |kids[i].positions| == 0 then active - 1 else active;
      if Contains(kids[i], p) then
        EntriesOfUpdate(kids, i, kids[i]);
        var (ok, c) := Remove(kids[i], p);
        EntriesOfUpdate(kids, i, c);
        if ok then (true, kids[i := c], active')
        else RemoveChildren(kids[i := c], i + 1, p, active')
      else RemoveChildren(kids, i + 1, p, active')
  }
}
