/**
 * Functional model of OctreeGeneric<T>.OctreeNodeGeneric<T>, the octree node
 * that stores a Dictionary<Vector3, T>. The dictionary is an association list
 * in enumeration order. C# exceptions are explicit: every operation pairs an
 * Outcome (a returned flag, or the exception that escaped) with the state the
 * node is left in, which after an exception is the partly updated state.
 */
module GenericModel {
  import opened Geometry
  import opened Wrappers

  /** An exception the node's code can raise. */
  datatype Error =
    | DuplicateKey   // ArgumentException from Dictionary.Add or ToDictionary
    | NoElements     // InvalidOperationException from Enumerable.First

  /** How a call ends: it returns a flag, or an exception escapes. */
  datatype Outcome = Returned(ok: bool) | Threw(error: Error)

  /** One dictionary entry, a KeyValuePair<Vector3, T>. */
  type Entry<T> = (Point, T)

  /**
   * The state of one OctreeNodeGeneric<T>. `children` is empty while the
   * node's children array holds only nulls and lists the eight child states
   * once it is divided.
   */
  datatype Node<T> = Node(
    center: Point,
    radius: real,
    capacity: int,      // maxNodesInPartition
    count: int,         // currentNodesInPartition
    depth: int,         // currentDepth
    maxDepth: int,
    objects: seq<Entry<T>>,
    divided: bool,      // hasBeenDivided
    children: seq<Node<T>>)

  /** What Remove is asked to remove: one request per C# overload. */
  datatype Request<T> =
    | ByKey(pos: Point)                       // Remove(Vector3 pos)
    | ByKeyValue(pos: Point, obj: T)          // Remove(Vector3 pos, T obj)
    | ByValue(obj: T, asIndex: Option<int>)   // Remove(T obj); asIndex: the Int32 that obj equals, if obj is one

  /** A node as `new OctreeNodeGeneric<T>()` followed by the field assignments of its creator. */
  function Fresh<T>(center: Point, radius: real, capacity: int, depth: int, maxDepth: int): Node<T>
  {
    Node(center, radius, capacity, 0, depth, maxDepth, [], false, [])
  }

  // ---------------------------------------------------------------------
  // The dictionary as an association list

  function Keys<T>(s: seq<Entry<T>>): set<Point>
  {
    set i | 0 <= i < |s| :: s[i].0
  }

  /** Dictionary.ContainsKey. */
  predicate HasKey<T>(s: seq<Entry<T>>, k: Point)
  {
    k in Keys(s)
  }

  /** Dictionary.ContainsValue. */
  predicate HasValue<T(==)>(s: seq<Entry<T>>, v: T)
  {
    exists i :: 0 <= i < |s| && s[i].1 == v
  }

  /** No key occurs twice: what a Dictionary always satisfies. */
  predicate UniqueKeys<T>(s: seq<Entry<T>>)
  {
    forall i, j :: 0 <= i < j < |s| ==> s[i].0 != s[j].0
  }

  /** Dictionary.Remove(key): deletes the entry with that key, if any. */
  function RemoveKey<T>(s: seq<Entry<T>>, k: Point): seq<Entry<T>>
  {
    if s == [] then []
    else if s[0].0 == k then s[1..]
    else [s[0]] + RemoveKey(s[1..], k)
  }

  /** List<KeyValuePair>.Remove(item): deletes the first entry equal to item, if any. */
  function RemoveEntry<T(==)>(s: seq<Entry<T>>, e: Entry<T>): (r: seq<Entry<T>>)
    ensures e in s ==> |r| == |s| - 1
    ensures e !in s ==> r == s
  {
    if s == [] then []
    else if s[0] == e then s[1..]
    else [s[0]] + RemoveEntry(s[1..], e)
  }

  /**
   * `objects.Where((x, y) => y.Equals(obj)).First()`: the lambda's second
   * parameter is the element's index, so the entry chosen is the one at the
   * index obj equals as an Int32; First() throws when there is none.
   */
  function FirstAtIndex<T>(s: seq<Entry<T>>, asIndex: Option<int>): Option<Entry<T>>
  {
    if asIndex.Some? && 0 <= asIndex.value < |s| then Some(s[asIndex.value]) else None
  }

  // ---------------------------------------------------------------------
  // Measures

  /** Number of entries stored in a subtree. */
  function Entries<T>(t: Node<T>): nat
    decreases t
  {
    |t.objects| + EntriesOf(t.children)
  }

  function EntriesOf<T>(s: seq<Node<T>>): nat
    decreases s
  {
    if s == [] then 0 else EntriesOf(s[..|s| - 1]) + Entries(s[|s| - 1])
  }

  /** Number of nodes in a subtree. */
  function Size<T>(t: Node<T>): nat
    decreases t
  {
    1 + SizeOf(t.children)
  }

  function SizeOf<T>(s: seq<Node<T>>): nat
    decreases s
  {
    if s == [] then 0 else SizeOf(s[..|s| - 1]) + Size(s[|s| - 1])
  }

  lemma EntriesOfUpdate<T>(s: seq<Node<T>>, i: int, c: Node<T>)
    requires 0 <= i < |s|
    ensures EntriesOf(s[i := c]) == EntriesOf(s) - Entries(s[i]) + Entries(c)
    ensures SizeOf(s[i := c]) == SizeOf(s) - Size(s[i]) + Size(c)
    ensures Entries(s[i]) <= EntriesOf(s) && Size(s[i]) <= SizeOf(s)
    decreases |s|
  {
    if i < |s| - 1 {
      assert s[i := c][..|s| - 1] == s[..|s| - 1][i := c];
      EntriesOfUpdate(s[..|s| - 1], i, c);
    } else {
      assert s[i := c][..|s| - 1] == s[..|s| - 1];
    }
  }

  /** Children from, which have not yet been offered any entry, hold none. */
  predicate EmptyFrom<T>(kids: seq<Node<T>>, from: int)
  {
    forall k :: from <= k < |kids| && 0 <= k ==> Entries(kids[k]) == 0
  }

  lemma EntriesOfZero<T>(s: seq<Node<T>>)
    requires EmptyFrom(s, 0)
    ensures EntriesOf(s) == 0
    decreases |s|
  {
    if s != [] {
      EntriesOfZero(s[..|s| - 1]);
    }
  }

  // ---------------------------------------------------------------------
  // The node's operations

  /** SubDivide: eight fresh children in the fixed sign order, radius halved, depth one less. */
  function SubDivide<T>(t: Node<T>): (kids: seq<Node<T>>)
    ensures |kids| == 8
  {
    var r := t.radius / 2.0;
    [ Fresh(ChildCenter(t.center, t.radius, 0), r, t.capacity, t.depth - 1, t.maxDepth),
      Fresh(ChildCenter(t.center, t.radius, 1), r, t.capacity, t.depth - 1, t.maxDepth),
      Fresh(ChildCenter(t.center, t.radius, 2), r, t.capacity, t.depth - 1, t.maxDepth),
      Fresh(ChildCenter(t.center, t.radius, 3), r, t.capacity, t.depth - 1, t.maxDepth),
      Fresh(ChildCenter(t.center, t.radius, 4), r, t.capacity, t.depth - 1, t.maxDepth),
      Fresh(ChildCenter(t.center, t.radius, 5), r, t.capacity, t.depth - 1, t.maxDepth),
      Fresh(ChildCenter(t.center, t.radius, 6), r, t.capacity, t.depth - 1, t.maxDepth),
      Fresh(ChildCenter(t.center, t.radius, 7), r, t.capacity, t.depth - 1, t.maxDepth) ]
  }

  lemma SubDivideAt<T>(t: Node<T>)
    ensures forall k :: 0 <= k < 8 ==>
      SubDivide(t)[k] == Fresh(ChildCenter(t.center, t.radius, k), t.radius / 2.0, t.capacity, t.depth - 1, t.maxDepth)
  {
  }

  lemma SubDivideIsEmpty<T>(t: Node<T>)
    ensures EmptyFrom(SubDivide(t), 0)
    ensures EntriesOf(SubDivide(t)) == 0
  {
    EntriesOfZero(SubDivide(t));
  }

  predicate Contains<T>(t: Node<T>, p: Point)
  {
    InBox(t.center, t.radius, p)
  }

  /**
   * Insert(pos, obj). A call that returns false changes nothing, and one that
   * returns normally adds at most one entry to the subtree.
   */
  function Insert<T(==)>(t: Node<T>, pos: Point, obj: T): (r: (Outcome, Node<T>))
    ensures r.0 == Returned(false) ==> r.1 == t
    ensures r.0.Returned? ==> Entries(r.1) <= Entries(t) + 1
    decreases Entries(t), Entries(t) + Size(t) + 1, 0
  {
    if t.depth == 0 then (Returned(false), t)
    else if (pos, obj) in t.objects then (Returned(true), t)
    else if t.count < t.capacity && !t.divided then
      if HasKey(t.objects, pos) then (Threw(DuplicateKey), t.(count := t.count + 1))
      else (Returned(true), t.(count := t.count + 1, objects := t.objects + [(pos, obj)]))
    else if !t.divided then
      SubDivideIsEmpty(t);
      var (e, kids, rest) := PassDown(SubDivide(t), t.objects, 0);
      if e.Some? then (Threw(e.value), t.(children := kids, objects := rest))
      else (Returned(true), t.(children := kids, objects := rest, count := 0, divided := true))
    else
      var (out, kids) := InsertChildren(t.children, 0, pos, obj);
      (out, t.(children := kids))
  }

  /**
   * The divided branch of Insert: children i.. are tried in index order, each
   * only if its cube contains pos; an exception from a child escapes at once.
   */
  function InsertChildren<T(==)>(kids: seq<Node<T>>, i: int, pos: Point, obj: T): (r: (Outcome, seq<Node<T>>))
    requires 0 <= i <= |kids|
    ensures |r.1| == |kids|
    ensures r.0 == Returned(false) ==> r.1 == kids
    ensures r.0.Returned? ==> EntriesOf(r.1) <= EntriesOf(kids) + 1
    decreases EntriesOf(kids), EntriesOf(kids) + SizeOf(kids) + 1, |kids| - i
  {
    if i == |kids| then (Returned(false), kids)
    else if Contains(kids[i], pos) then
      EntriesOfUpdate(kids, i, kids[i]);
      var (out, c) := Insert(kids[i], pos, obj);
      EntriesOfUpdate(kids, i, c);
      if out == Returned(false) then InsertChildren(kids, i + 1, pos, obj) else (out, kids[i := c])
    else InsertChildren(kids, i + 1, pos, obj)
  }

  /**
   * PassDownObjects, from child i on. For each child the remaining entries are
   * copied to a list, offered to the child from the last to the first, and the
   * list (without the accepted ones) becomes the dictionary again. The result
   * is the exception that escaped, if any, the children and the dictionary.
   */
  function PassDown<T(==)>(kids: seq<Node<T>>, ps: seq<Entry<T>>, i: int): (r: (Option<Error>, seq<Node<T>>, seq<Entry<T>>))
    requires 0 <= i <= |kids|
    requires EmptyFrom(kids, i)
    ensures |r.1| == |kids|
    ensures r.0.None? ==> EntriesOf(r.1) + |r.2| <= EntriesOf(kids) + |ps|
    decreases |ps|, |ps| + 1, |kids| - i
  {
    if i == |kids| then (None, kids, ps)
    else
      var (e, c, rest) := PassDownInto(kids[i], ps, |ps|);
      EntriesOfUpdate(kids, i, c);
      if e.Some? then (e, kids[i := c], ps)
      else if !UniqueKeys(rest) then (Some(DuplicateKey), kids[i := c], ps)
      else PassDown(kids[i := c], rest, i + 1)
  }

  /** One iteration of the outer loop of PassDownObjects. */
  lemma PassDownStep<T>(kids: seq<Node<T>>, ps: seq<Entry<T>>, i: int)
    requires 0 <= i < |kids|
    requires EmptyFrom(kids, i)
    ensures var r := PassDownInto(kids[i], ps, |ps|);
      && EmptyFrom(kids[i := r.1], i + 1)
      && (r.0.Some? ==> PassDown(kids, ps, i) == (r.0, kids[i := r.1], ps))
      && (r.0.None? && !UniqueKeys(r.2) ==> PassDown(kids, ps, i) == (Some(DuplicateKey), kids[i := r.1], ps))
      && (r.0.None? && UniqueKeys(r.2) ==> PassDown(kids, ps, i) == PassDown(kids[i := r.1], r.2, i + 1))
  {
  }

  /**
   * The inner loop of PassDownObjects for one child, over list positions j-1
   * down to 0; an accepted entry is removed with List.Remove.
   */
  function PassDownInto<T(==)>(c: Node<T>, ps: seq<Entry<T>>, j: int): (r: (Option<Error>, Node<T>, seq<Entry<T>>))
    requires 0 <= j <= |ps|
    ensures r.0.None? ==> Entries(r.1) + |r.2| <= Entries(c) + |ps|
    decreases Entries(c) + j, j, 0
  {
    if j == 0 then (None, c, ps)
    else
      var k := j - 1;
      if Contains(c, ps[k].0) then
        var (out, c') := Insert(c, ps[k].0, ps[k].1);
        if out.Threw? then (Some(out.error), c', ps)
        else if out.ok then
          PassDownInto(c', RemoveEntry(ps, ps[k]), k)
        else PassDownInto(c', ps, k)
      else PassDownInto(c, ps, k)
  }

  /**
   * The three Remove overloads. On a leaf the request decides; on a divided
   * node every child whose own dictionary is empty is counted before it is
   * probed, and when no child removes anything and all eight counted empty the
   * children are dropped.
   */
  function Remove<T(==)>(t: Node<T>, req: Request<T>): (r: (Outcome, Node<T>))
    ensures Size(r.1) <= Size(t)
    decreases Size(t), 0
  {
    if !t.divided then
      (match req
      case ByKey(pos) =>
        if HasKey(t.objects, pos) then (Returned(true), t.(count := t.count - 1, objects := RemoveKey(t.objects, pos)))
        else (Returned(false), t)
      case ByKeyValue(pos, obj) =>
        if HasValue(t.objects, obj) then (Returned(true), t.(count := t.count - 1, objects := RemoveKey(t.objects, pos)))
        else (Returned(false), t)
      case ByValue(obj, asIndex) =>
        if !HasValue(t.objects, obj) then (Returned(false), t)
        else
          (match FirstAtIndex(t.objects, asIndex)
           case None => (Threw(NoElements), t.(count := t.count - 1))
           case Some(pair) => (Returned(true), t.(count := t.count - 1, objects := RemoveKey(t.objects, pair.0)))))
    else
      var probe := ProbeKey(t.objects, req);
      if probe.None? then (Threw(NoElements), t)
      else
        var (out, kids, active) := RemoveChildren(t.children, 0, req, probe.value, 8);
        if out != Returned(false) then (out, t.(children := kids))
        else if active == 0 then (Returned(false), t.(children := [], divided := false))
        else (Returned(false), t.(children := kids))
  }

  /**
   * The position a divided node tests its children's cubes against: the key
   * given, or for Remove(T obj) the key of the node's own entry that
   * `Where(...).First()` selects (None when First() throws).
   */
  function ProbeKey<T>(s: seq<Entry<T>>, req: Request<T>): Option<Point>
  {
    match req
    case ByKey(pos) => Some(pos)
    case ByKeyValue(pos, _) => Some(pos)
    case ByValue(_, asIndex) =>
      var pair := FirstAtIndex(s, asIndex);
      if pair.Some? then Some(pair.value.0) else None
  }

  /** The loop of the divided branch of Remove, from child i with `active` still counted. */
  function RemoveChildren<T(==)>(kids: seq<Node<T>>, i: int, req: Request<T>, probe: Point, active: int): (r: (Outcome, seq<Node<T>>, int))
    requires 0 <= i <= |kids|
    ensures |r.1| == |kids|
    ensures SizeOf(r.1) <= SizeOf(kids)
    decreases SizeOf(kids), |kids| - i
  {
    if i == |kids| then (Returned(false), kids, active)
    else
      var active' := if |kids[i].objects| == 0 then active - 1 else active;
      if Contains(kids[i], probe) then
        EntriesOfUpdate(kids, i, kids[i]);
        var (out, c) := Remove(kids[i], req);
        EntriesOfUpdate(kids, i, c);
        if out == Returned(false) then RemoveChildren(kids[i := c], i + 1, req, probe, active')
        else (out, kids[i := c], active')
      else RemoveChildren(kids, i + 1, req, probe, active')
  }
}
