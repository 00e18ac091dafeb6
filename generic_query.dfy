/**
 * The partition queries of OctreeNodeGeneric<T>: GetObjectAtPartition and
 * GetObjectsAtPartition. Both test `children.Length == 0` to recognise a
 * leaf, but the children array always has length 8, so as written they never
 * reach the leaf branch and dereference the null children of every leaf they
 * descend to. The corrected queries descend while the node is divided.
 */
module GenericQuery {
  import opened Geometry
  import opened Wrappers
  import opened GenericModel
  import opened GenericProperties
  import opened GenericRouting

  /** How a query ends: it returns a value (None is null or default(T)), or dereferences a null child. */
  datatype Answer<R> = Value(result: Option<R>) | NullDereference

  /** The first entry with key k, as `foreach` over the dictionary finds it. */
  function Lookup<T>(s: seq<Entry<T>>, k: Point): Option<T>
  {
    if s == [] then None else if s[0].0 == k then Some(s[0].1) else Lookup(s[1..], k)
  }

  /** With unique keys, the lookup finds v exactly when (k, v) is stored. */
  lemma {:induction false} LookupFinds<T>(s: seq<Entry<T>>, k: Point, v: T)
    requires UniqueKeys(s)
    ensures Lookup(s, k) == Some(v) <==> (k, v) in s
    ensures Lookup(s, k) == None <==> k !in Keys(s)
    decreases |s|
  {
    if s != [] {
      assert s == [s[0]] + s[1..];
      KeysCons(s[0], s[1..]);
      LookupFinds(s[1..], k, v);
    }
  }

  // ---------------------------------------------------------------------
  // As written

  /** GetObjectAtPartition as written: a leaf's loop reads the null children[0]. */
  function GetObjectAsWritten<T>(t: Node<T>, q: Point): Answer<T>
    decreases Size(t), 0
  {
    if !t.divided then NullDereference
    else GetFromChildrenAsWritten(t.children, 0, q)
  }

  /**
   * The loop over children i.. of a divided node: the first child whose cube
   * contains q answers, and a query no child's cube contains returns null.
   */
  function GetFromChildrenAsWritten<T>(kids: seq<Node<T>>, i: int, q: Point): Answer<T>
    requires 0 <= i <= |kids|
    decreases SizeOf(kids), |kids| - i + 1
  {
    if i == |kids| then Value(None)
    else if Contains(kids[i], q) then
      EntriesOfUpdate(kids, i, kids[i]);
      GetObjectAsWritten(kids[i], q)
    else GetFromChildrenAsWritten(kids, i + 1, q)
  }

  /** GetObjectsAtPartition as written: the same descent, returning the value list. */
  function GetObjectsAsWritten<T>(t: Node<T>, q: Point): Answer<seq<T>>
    decreases Size(t), 0
  {
    if !t.divided then NullDereference
    else GetAllFromChildrenAsWritten(t.children, 0, q)
  }

  function GetAllFromChildrenAsWritten<T>(kids: seq<Node<T>>, i: int, q: Point): Answer<seq<T>>
    requires 0 <= i <= |kids|
    decreases SizeOf(kids), |kids| - i + 1
  {
    if i == |kids| then Value(None)
    else if Contains(kids[i], q) then
      EntriesOfUpdate(kids, i, kids[i]);
      GetObjectsAsWritten(kids[i], q)
    else GetAllFromChildrenAsWritten(kids, i + 1, q)
  }

  /** As written, neither query ever returns anything stored: it fails on a null child or returns null. */
  lemma {:induction false} AsWrittenNeverFinds<T>(t: Node<T>, q: Point)
    ensures GetObjectAsWritten(t, q) == NullDereference || GetObjectAsWritten(t, q) == Value(None)
    ensures GetObjectsAsWritten(t, q) == NullDereference || GetObjectsAsWritten(t, q) == Value(None)
    decreases Size(t), 0
  {
    if t.divided {
      ChildrenAsWrittenNeverFind(t.children, 0, q);
    }
  }

  lemma {:induction false} ChildrenAsWrittenNeverFind<T>(kids: seq<Node<T>>, i: int, q: Point)
    requires 0 <= i <= |kids|
    ensures GetFromChildrenAsWritten(kids, i, q) == NullDereference || GetFromChildrenAsWritten(kids, i, q) == Value(None)
    ensures GetAllFromChildrenAsWritten(kids, i, q) == NullDereference || GetAllFromChildrenAsWritten(kids, i, q) == Value(None)
    decreases SizeOf(kids), |kids| - i + 1
  {
    if i < |kids| {
      if Contains(kids[i], q) {
        EntriesOfUpdate(kids, i, kids[i]);
        AsWrittenNeverFinds(kids[i], q);
      } else {
        ChildrenAsWrittenNeverFind(kids, i + 1, q);
      }
    }
  }

  /** The smallest input that shows it: a root leaf holding (q, v) fails on its own key. */
  lemma AsWrittenMissesStoredEntry<T>(c: Point, q: Point, v: T)
    requires InBox(c, 1.0, q)
    ensures var t := Node(c, 1.0, 4, 1, 4, 4, [(q, v)], false, []);
      && GetObjectAsWritten(t, q) == NullDereference
      && GetObjectsAsWritten(t, q) == NullDereference
      && GetObject(t, q) == Some(v)
      && GetObjects(t, q) == Some([v])
  {
    var t := Node(c, 1.0, 4, 1, 4, 4, [(q, v)], false, []);
    assert Values(t.objects) == [v] by {
      assert t.objects[1..] == [];
    }
  }

  // ---------------------------------------------------------------------
  // Corrected: a node is a leaf when it is not divided

  /** The values of a dictionary in enumeration order (Values.ToList()). */
  function Values<T>(s: seq<Entry<T>>): (r: seq<T>)
    ensures |r| == |s| && forall m :: 0 <= m < |s| ==> r[m] == s[m].1
  {
    if s == [] then [] else [s[0].1] + Values(s[1..])
  }

  /** GetObjectAtPartition with the leaf test on hasBeenDivided. */
  function GetObject<T>(t: Node<T>, q: Point): Option<T>
    decreases Size(t), 0
  {
    if !t.divided then (if Contains(t, q) then Lookup(t.objects, q) else None)
    else GetFromChildren(t.children, 0, q)
  }

  function GetFromChildren<T>(kids: seq<Node<T>>, i: int, q: Point): Option<T>
    requires 0 <= i <= |kids|
    decreases SizeOf(kids), |kids| - i + 1
  {
    if i == |kids| then None
    else if Contains(kids[i], q) then
      EntriesOfUpdate(kids, i, kids[i]);
      GetObject(kids[i], q)
    else GetFromChildren(kids, i + 1, q)
  }

  /** GetObjectsAtPartition with the leaf test on hasBeenDivided. */
  function GetObjects<T>(t: Node<T>, q: Point): Option<seq<T>>
    decreases Size(t), 0
  {
    if !t.divided then (if Contains(t, q) then Some(Values(t.objects)) else None)
    else GetAllFromChildren(t.children, 0, q)
  }

  function GetAllFromChildren<T>(kids: seq<Node<T>>, i: int, q: Point): Option<seq<T>>
    requires 0 <= i <= |kids|
    decreases SizeOf(kids), |kids| - i + 1
  {
    if i == |kids| then None
    else if Contains(kids[i], q) then
      EntriesOfUpdate(kids, i, kids[i]);
      GetObjects(kids[i], q)
    else GetAllFromChildren(kids, i + 1, q)
  }

  /** On a leaf whose cube contains q, the corrected queries return what the leaf stores. */
  lemma LeafQueries<T>(t: Node<T>, q: Point, v: T)
    requires !t.divided && Contains(t, q) && UniqueKeys(t.objects)
    ensures GetObject(t, q) == Some(v) <==> (q, v) in t.objects
    ensures GetObject(t, q) == None <==> q !in Keys(t.objects)
    ensures GetObjects(t, q) == Some(Values(t.objects))
  {
    LookupFinds(t.objects, q, v);
  }

  /** The loop over children i.. answers from the first child whose cube contains q. */
  lemma {:induction false} GetFromChildrenFirst<T>(kids: seq<Node<T>>, i: int, q: Point)
    requires 0 <= i <= |kids|
    ensures var k := FirstIn(kids, q, i);
      && GetFromChildren(kids, i, q) == (if k < |kids| then GetObject(kids[k], q) else None)
      && GetAllFromChildren(kids, i, q) == (if k < |kids| then GetObjects(kids[k], q) else None)
    decreases |kids| - i
  {
    if i < |kids| && !Contains(kids[i], q) {
      GetFromChildrenFirst(kids, i + 1, q);
    }
  }

  /**
   * After the overflow branch of Insert has split a node whose children have
   * room, the corrected query finds every entry that moved down, at its own
   * key, in the child of its octant.
   */
  lemma FindsAfterSplit<T>(t: Node<T>, pos: Point, obj: T, e: Entry<T>)
    requires t.depth != 0 && t.depth != 1 && !t.divided && t.count >= t.capacity
    requires (pos, obj) !in t.objects && |t.objects| <= t.capacity && UniqueKeys(t.objects)
    requires e in t.objects && InBox(t.center, t.radius, e.0)
    ensures GetObject(Insert(t, pos, obj).1, e.0) == Some(e.1)
  {
    var t' := Insert(t, pos, obj).1;
    var k := OctantIndex(t.center, e.0);
    SplitRoutesEntries(t, pos, obj, e);
    OctantIndexIsFirstContainingChild(t.center, t.radius, e.0);
    SubDivideIsEmpty(t);
    PassDownFrame(SubDivide(t), t.objects, 0);
    SubDivideAt(t);
    FirstInSubDivide(t, e.0);
    assert SameConfig(SubDivide(t)[k], t'.children[k]);
    FirstInSame(SubDivide(t), t'.children, e.0, 0);
    GetFromChildrenFirst(t'.children, 0, e.0);
    LeafQueries(t'.children[k], e.0, e.1);
  }

  /** FirstIn depends only on the children's cubes. */
  lemma {:induction false} FirstInSame<T>(a: seq<Node<T>>, b: seq<Node<T>>, q: Point, i: int)
    requires |a| == |b| && 0 <= i <= |a|
    requires forall k :: 0 <= k < |a| ==> SameConfig(a[k], b[k])
    ensures FirstIn(a, q, i) == FirstIn(b, q, i)
    decreases |a| - i
  {
    if i < |a| {
      FirstInSame(a, b, q, i + 1);
    }
  }
}
