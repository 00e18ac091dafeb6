/**
 * OctreeGeneric<T> and OctreeGeneric<T>.OctreeNodeGeneric<T> as heap objects:
 * each node keeps the fields of the C# class, its children array of length 8,
 * and a ghost footprint Repr. The ghost field Model holds a node's subtree as
 * a GenericModel.Node value, and every method is proved to compute what the
 * corresponding GenericModel function says, exceptions included.
 */
module GenericOctree {
  import opened Geometry
  import opened Wrappers
  import opened GenericModel
  import opened GenericProperties

  class OctreeNodeGeneric<T(==)> {
    var center: Point          // nodePosition
    var radius: real           // nodeRadius
    var children: array<OctreeNodeGeneric?<T>>
    var capacity: int          // maxNodesInPartition
    var count: int             // currentNodesInPartition
    var depth: int             // currentDepth
    var maxDepth: int
    var objects: seq<Entry<T>> // the Dictionary<Vector3, T>, in enumeration order
    var divided: bool          // hasBeenDivided
    ghost var Repr: set<object>
    ghost var Model: Node<T>   // the subtree as a GenericModel value

    /** Every object added to Repr since the footprint `before` is newly allocated. */
    twostate predicate Grown(before: set<object>)
      reads this
    {
      forall o :: o in Repr && o !in before ==> fresh(o)
    }

    ghost predicate Shape()
      reads this`Repr, this`children
    {
      this in Repr && children in Repr && children.Length == 8
    }

    /**
     * Children 0..n-1 are present, valid, own disjoint parts of Repr that leave
     * out this node and its array, and have kids[0..n-1] as their models.
     */
    ghost predicate ValidChildren(n: int, kids: seq<Node<T>>)
      reads this`Repr, this`children, Repr - {this}
      requires 0 <= n <= 8
      decreases Repr, 1
    {
      && Shape() && |kids| == 8
      && (forall i :: 0 <= i < n ==>
            && children[i] != null && children[i] != this && children[i] in Repr && children[i] in children[i].Repr
            && children[i].Repr <= Repr && this !in children[i].Repr && children !in children[i].Repr
            && children[i].Valid() && children[i].Model == kids[i])
      && (forall i, j :: 0 <= i < j < n ==> children[i].Repr !! children[j].Repr)
    }

    /** The fields other than the children agree with Model. */
    ghost predicate FieldsMatch()
      reads this
    {
      Model == Node(center, radius, capacity, count, depth, maxDepth, objects, divided, Model.children)
    }

    /**
     * The dictionary has unique keys; a divided node has eight valid children
     * whose models are its model's children, an undivided one holds only nulls.
     */
    ghost predicate Valid()
      reads this, Repr
      decreases Repr, 2
    {
      && Shape() && FieldsMatch() && UniqueKeys(objects)
      && if divided then |Model.children| == 8 && ValidChildren(8, Model.children)
         else Model.children == [] && forall i :: 0 <= i < 8 ==> children[i] == null
    }

    /** `new OctreeNodeGeneric<T>()` together with the field assignments its creator makes. */
    constructor (c: Point, r: real, cap: int, d: int, md: int)
      ensures Valid() && fresh(Repr)
      ensures Model == Fresh(c, r, cap, d, md)
    {
      center, radius, capacity, depth, maxDepth := c, r, cap, d, md;
      count := 0;
      objects := [];
      divided := false;
      children := new OctreeNodeGeneric?<T>[8](_ => null);
      Repr := {this, children};
      Model := Fresh(c, r, cap, d, md);
    }

    predicate IsInsideBoundingBox(p: Point)
      reads this
    {
      InBox(center, radius, p)
    }

    function GetNodesInPartition(): nat
      reads this
    {
      |objects|
    }

    method Insert(pos: Point, obj: T) returns (out: Outcome)
      requires Valid()
      modifies Repr
      ensures Valid() && Grown(old(Repr))
      ensures (out, Model) == GenericModel.Insert(old(Model), pos, obj)
      decreases Entries(Model), Entries(Model) + Size(Model) + 1, 1
    {
      if depth == 0 {
        return Returned(false);
      }
      if (pos, obj) in objects {
        return Returned(true);
      }
      if count < capacity && !divided {
        count := count + 1;
        if HasKey(objects, pos) {
          Model := Model.(count := count);
          return Threw(DuplicateKey);
        }
        KeysAppend(objects, (pos, obj));
        objects := objects + [(pos, obj)];
        Model := Model.(count := count, objects := objects);
        return Returned(true);
      }
      if !divided {
        Split();
        return Returned(true);
      }
      ghost var t := Model;
      for i := 0 to children.Length
        invariant Valid() && divided && Grown(old(Repr))
        invariant Model == t
        invariant InsertChildren(t.children, 0, pos, obj) == InsertChildren(t.children, i, pos, obj)
      {
        ChildBox(i, Model.children);
        if children[i].IsInsideBoundingBox(pos) {
          out := InsertIntoChild(i, pos, obj);
          if out != Returned(false) {
            return;
          }
        }
      }
      return Returned(false);
    }

    /**
     * The frame argument shared by the steps that call into child i: when only
     * objects of child i's old footprint changed (and this node's own fields),
     * child i is still valid and its footprint grew only by fresh objects, the
     * other seven children are untouched and the children are still valid.
     */
    twostate lemma ChildReplaced(i: int, new kids: seq<Node<T>>)
      requires 0 <= i < 8 && old(allocated(kids)) && old(ValidChildren(8, kids))
      requires children == old(children) && unchanged(children)
      requires children[i].Valid() && children[i].Grown(old(children[i].Repr))
      requires unchanged(old(Repr) - old(children[i].Repr) - {this})
      requires Repr == old(Repr) + children[i].Repr
      ensures ValidChildren(8, kids[i := children[i].Model])
    {
    }

    /** One step of the loop over the children: `children[i].Insert(pos, obj)`. */
    method InsertIntoChild(i: int, pos: Point, obj: T) returns (out: Outcome)
      requires Valid() && divided && 0 <= i < 8
      modifies Repr
      ensures Valid() && divided && Grown(old(Repr))
      ensures var r := GenericModel.Insert(old(Model.children[i]), pos, obj);
        out == r.0 && Model == old(Model).(children := old(Model.children)[i := r.1])
      ensures out == Returned(false) ==> Model == old(Model)
      decreases Entries(Model), Entries(Model) + Size(Model) + 1, 0
    {
      ghost var kids := Model.children;
      EntriesOfUpdate(kids, i, kids[i]);
      out := children[i].Insert(pos, obj);
      Repr := Repr + children[i].Repr;
      Model := Model.(children := Model.children[i := children[i].Model]);
      ChildReplaced(i, kids);
      if out == Returned(false) {
        assert Model.children == kids;
      }
    }

    /**
     * The overflow branch of Insert: SubDivide, PassDownObjects, then the node
     * is marked divided. PassDownObjects cannot throw here, because the
     * dictionary it hands down has unique keys (PassDownNeverThrows).
     */
    method Split()
      requires Valid() && !divided
      modifies Repr
      ensures Valid() && Grown(old(Repr))
      ensures var r := PassDown(GenericModel.SubDivide(old(Model)), old(objects), 0);
        r.0.None? && Model == old(Model).(children := r.1, objects := r.2, count := 0, divided := true)
      decreases Entries(Model), Entries(Model) + Size(Model) + 1, 0
    {
      assert FixedFields();
      SubDivide();
      SubDivideIsEmpty(Model);
      PassDownNeverThrows(Model);
      var e;
      ghost var kids;
      e, kids := PassDownObjects(GenericModel.SubDivide(Model));
      MarkDivided(kids);
    }

    /** The fields of a node that only its constructor and creator assign. */
    ghost predicate FixedFields()
      reads this`center, this`radius, this`capacity, this`depth, this`maxDepth, this`Model
    {
      && Model.center == center && Model.radius == radius && Model.capacity == capacity
      && Model.depth == depth && Model.maxDepth == maxDepth
    }

    /** The last two statements of the overflow branch: `count = 0; hasBeenDivided = true`. */
    method MarkDivided(ghost kids: seq<Node<T>>)
      requires ValidChildren(8, kids) && FixedFields() && UniqueKeys(objects)
      modifies this`count, this`divided, this`Model
      ensures Valid()
      ensures Model == old(Model).(children := kids, objects := objects, count := 0, divided := true)
    {
      count := 0;
      divided := true;
      Model := Model.(children := kids, objects := objects, count := 0, divided := true);
    }

    /** Creates the eight children of SubDivide(); the node is not yet marked divided. */
    method SubDivide()
      requires Valid() && !divided
      modifies this`Repr, children
      ensures ValidChildren(8, GenericModel.SubDivide(Model)) && Grown(old(Repr))
    {
      SubDivideAt(Model);
      for i := 0 to 8
        invariant ValidChildren(i, GenericModel.SubDivide(Model)) && Grown(old(Repr))
      {
        AddChild(i, GenericModel.SubDivide(Model));
      }
    }

    /** One step of SubDivide: `children[i] = new OctreeNodeGeneric<T>()` and its set-up. */
    method AddChild(i: int, ghost kids: seq<Node<T>>)
      requires 0 <= i < 8 && ValidChildren(i, kids)
      requires kids[i] == Fresh(ChildCenter(center, radius, i), radius / 2.0, capacity, depth - 1, maxDepth)
      modifies this`Repr, children
      ensures ValidChildren(i + 1, kids) && Grown(old(Repr))
    {
      var c := new OctreeNodeGeneric<T>(ChildCenter(center, radius, i), radius / 2.0, capacity, depth - 1, maxDepth);
      children[i] := c;
      Repr := Repr + c.Repr;
    }

    /**
     * PassDownObjects, for children whose models are kids. Returns the
     * exception that escaped, if any, and the new models of the children.
     */
    method PassDownObjects(ghost kids: seq<Node<T>>) returns (e: Option<Error>, ghost kids': seq<Node<T>>)
      requires ValidChildren(8, kids) && EmptyFrom(kids, 0)
      modifies this`objects, this`Repr, Repr - {this}
      ensures ValidChildren(8, kids') && Grown(old(Repr))
      ensures (e, kids', objects) == PassDown(kids, old(objects), 0)
      decreases |objects|, |objects| + 1, 9
    {
      ghost var bound := |objects|;
      ghost var target := PassDown(kids, objects, 0);
      kids' := kids;
      for i := 0 to children.Length
        invariant ValidChildren(8, kids') && Grown(old(Repr))
        invariant EmptyFrom(kids', i)
        invariant |objects| <= bound
        invariant PassDown(kids', objects, i) == target
      {
        PassDownStep(kids', objects, i);
        var tempList := objects;
        e, tempList, kids' := PassDownChild(i, kids', tempList, bound);
        if e.Some? {
          return;
        }
        if !UniqueKeys(tempList) {
          e := Some(DuplicateKey);
          return;
        }
        objects := tempList;
      }
      e := None;
    }

    /**
     * The inner loop of PassDownObjects: the entries of `list` from the last to
     * the first are offered to child i; the list without the accepted ones is
     * returned, with the exception that escaped, if any.
     */
    method PassDownChild(i: int, ghost kids: seq<Node<T>>, list: seq<Entry<T>>, ghost bound: nat)
      returns (e: Option<Error>, list': seq<Entry<T>>, ghost kids': seq<Node<T>>)
      requires 0 <= i < 8 && ValidChildren(8, kids)
      requires Entries(kids[i]) == 0 && |list| <= bound
      modifies this`Repr, Repr - {this}
      ensures ValidChildren(8, kids') && Grown(old(Repr))
      ensures (e, kids'[i], list') == PassDownInto(kids[i], list, |list|) && kids' == kids[i := kids'[i]]
      decreases bound, bound + 1, 8
    {
      kids' := kids;
      list' := list;
      var j := |list'| - 1;
      while j >= 0
        invariant -1 <= j < |list'|
        invariant ValidChildren(8, kids') && Grown(old(Repr))
        invariant kids' == kids[i := kids'[i]]
        invariant Entries(kids'[i]) + |list'| <= bound
        invariant PassDownInto(kids'[i], list', j + 1) == PassDownInto(kids[i], list, |list|)
      {
        ChildBox(i, kids');
        if children[i].IsInsideBoundingBox(list'[j].0) {
          var out;
          out, list', kids' := PassOne(i, j, kids', list', bound);
          if out.Threw? {
            e := Some(out.error);
            return;
          }
        }
        j := j - 1;
      }
      e := None;
    }

    /** Child i's cube and its dictionary are the ones its model records. */
    lemma ChildBox(i: int, kids: seq<Node<T>>)
      requires 0 <= i < 8 && ValidChildren(8, kids)
      ensures children[i].center == kids[i].center && children[i].radius == kids[i].radius
      ensures children[i].objects == kids[i].objects
    {
      assert children[i].Valid();
    }

    /**
     * One step of PassDownObjects: offer list[j] to child i and take it out of
     * the list (List.Remove) when the child accepts it.
     */
    method PassOne(i: int, j: int, ghost kids: seq<Node<T>>, list: seq<Entry<T>>, ghost bound: nat)
      returns (out: Outcome, list': seq<Entry<T>>, ghost kids': seq<Node<T>>)
      requires ValidChildren(8, kids) && 0 <= i < 8 && 0 <= j < |list|
      requires Entries(kids[i]) + |list| <= bound
      modifies this`Repr, Repr - {this}
      ensures ValidChildren(8, kids') && Grown(old(Repr))
      ensures var r := GenericModel.Insert(kids[i], list[j].0, list[j].1);
        && out == r.0 && kids' == kids[i := r.1]
        && list' == if out == Returned(true) then RemoveEntry(list, list[j]) else list
      ensures out.Returned? ==> Entries(kids'[i]) + |list'| <= Entries(kids[i]) + |list|
      decreases bound, bound + 1, 7
    {
      out := children[i].Insert(list[j].0, list[j].1);
      Repr := Repr + children[i].Repr;
      kids' := kids[i := children[i].Model];
      list' := list;
      if out == Returned(true) {
        list' := RemoveEntry(list, list[j]);
      }
      ChildReplaced(i, kids);
    }

    /**
     * The three Remove overloads, told apart by req: Remove(pos) is ByKey,
     * Remove(pos, obj) is ByKeyValue and Remove(obj) is ByValue.
     */
    method Remove(req: Request<T>) returns (out: Outcome)
      requires Valid()
      modifies Repr
      ensures Valid() && Grown(old(Repr))
      ensures (out, Model) == GenericModel.Remove(old(Model), req)
      decreases Size(Model), 2
    {
      if !divided {
        out := RemoveFromLeaf(req);
        return;
      }
      var probe := ProbeKey(objects, req);
      if probe.None? {
        return Threw(NoElements);
      }
      ghost var t := Model;
      var activeChildCount := 8;
      for i := 0 to children.Length
        invariant Valid() && divided && Grown(old(Repr))
        invariant Model == t.(children := Model.children)
        invariant SizeOf(Model.children) <= SizeOf(t.children)
        invariant RemoveChildren(t.children, 0, req, probe.value, 8) == RemoveChildren(Model.children, i, req, probe.value, activeChildCount)
      {
        out, activeChildCount := RemoveStep(i, req, probe.value, activeChildCount);
        if out != Returned(false) {
          return;
        }
      }
      if activeChildCount == 0 {
        Collapse();
      }
      return Returned(false);
    }

    /** The undivided branch of the three Remove overloads. */
    method RemoveFromLeaf(req: Request<T>) returns (out: Outcome)
      requires Valid() && !divided
      modifies this`count, this`objects, this`Model
      ensures Valid() && (out, Model) == GenericModel.Remove(old(Model), req)
    {
      match req {
      case ByKey(pos) =>
        if HasKey(objects, pos) {
          count := count - 1;
          RemoveKeyShrinks(objects, pos);
          objects := RemoveKey(objects, pos);
          Model := Model.(count := count, objects := objects);
          return Returned(true);
        }
      case ByKeyValue(pos, obj) =>
        if HasValue(objects, obj) {
          count := count - 1;
          RemoveKeyShrinks(objects, pos);
          objects := RemoveKey(objects, pos);
          Model := Model.(count := count, objects := objects);
          return Returned(true);
        }
      case ByValue(obj, asIndex) =>
        if HasValue(objects, obj) {
          count := count - 1;
          var pair := FirstAtIndex(objects, asIndex);
          if pair.None? {
            Model := Model.(count := count);
            return Threw(NoElements);
          }
          RemoveKeyShrinks(objects, pair.value.0);
          objects := RemoveKey(objects, pair.value.0);
          Model := Model.(count := count, objects := objects);
          return Returned(true);
        }
      }
      return Returned(false);
    }

    /** The end of a failed removal with no populated child: the children are dropped. */
    method Collapse()
      requires Valid() && divided
      modifies children, this`divided, this`Model
      ensures Valid() && Model == old(Model).(children := [], divided := false)
    {
      for i := 0 to children.Length
        invariant forall k :: 0 <= k < i ==> children[k] == null
        modifies children
      {
        children[i] := null;
      }
      divided := false;
      Model := Model.(children := [], divided := false);
    }

    /**
     * One pass of the loop over the children in Remove: child i is counted
     * when its dictionary is empty, then asked to remove if its cube contains
     * the probe position.
     */
    method RemoveStep(i: int, req: Request<T>, probe: Point, active: int) returns (out: Outcome, active': int)
      requires Valid() && divided && 0 <= i < 8
      modifies Repr
      ensures Valid() && divided && Grown(old(Repr))
      ensures Model == old(Model).(children := Model.children)
      ensures SizeOf(Model.children) <= SizeOf(old(Model.children))
      ensures out != Returned(false) ==>
        RemoveChildren(old(Model.children), i, req, probe, active) == (out, Model.children, active')
      ensures out == Returned(false) ==>
        RemoveChildren(old(Model.children), i, req, probe, active) == RemoveChildren(Model.children, i + 1, req, probe, active')
      decreases Size(Model), 1
    {
      active' := active;
      if children[i].GetNodesInPartition() == 0 {
        active' := active - 1;
      }
      ChildBox(i, Model.children);
      out := Returned(false);
      if children[i].IsInsideBoundingBox(probe) {
        out := RemoveFromChild(i, req);
      }
    }

    /** `children[i].Remove(...)`, with the child's new state recorded. */
    method RemoveFromChild(i: int, req: Request<T>) returns (out: Outcome)
      requires Valid() && divided && 0 <= i < 8
      modifies Repr
      ensures Valid() && divided && Grown(old(Repr))
      ensures var r := GenericModel.Remove(old(Model.children[i]), req);
        out == r.0 && Model == old(Model).(children := old(Model.children)[i := r.1])
      ensures SizeOf(Model.children) <= SizeOf(old(Model.children))
      decreases Size(Model), 0
    {
      ghost var kids := Model.children;
      EntriesOfUpdate(kids, i, kids[i]);
      out := children[i].Remove(req);
      Repr := Repr + children[i].Repr;
      Model := Model.(children := Model.children[i := children[i].Model]);
      ChildReplaced(i, kids);
      EntriesOfUpdate(kids, i, children[i].Model);
    }
  }

  /** The OctreeGeneric<T> wrapper: a root node configured by the constructor, every call forwarded. */
  class OctreeGeneric<T(==)> {
    var octreeRoot: OctreeNodeGeneric<T>
    ghost var Repr: set<object>

    ghost predicate Valid()
      reads this, Repr
    {
      && this in Repr && octreeRoot in Repr && octreeRoot.Repr <= Repr && this !in octreeRoot.Repr
      && octreeRoot.Valid()
    }

    /** The whole tree as a GenericModel value. */
    ghost function Model(): Node<T>
      reads this, octreeRoot
    {
      octreeRoot.Model
    }

    constructor (center: Point, radius: real, maxNodesInPartition: int, maxDepth: int := 4)
      ensures Valid() && fresh(Repr)
      ensures Model() == Fresh(center, radius, maxNodesInPartition, maxDepth, maxDepth)
    {
      octreeRoot := new OctreeNodeGeneric<T>(center, radius, maxNodesInPartition, maxDepth, maxDepth);
      new;
      Repr := {this} + octreeRoot.Repr;
    }

    method Insert(pos: Point, obj: T) returns (out: Outcome)
      requires Valid()
      modifies Repr
      ensures Valid() && fresh(Repr - old(Repr))
      ensures (out, Model()) == GenericModel.Insert(old(Model()), pos, obj)
    {
      out := octreeRoot.Insert(pos, obj);
      Repr := Repr + octreeRoot.Repr;
    }

    /** Remove(T obj); asIndex is the Int32 obj equals, if obj is one. */
    method RemoveByValue(obj: T, asIndex: Option<int>) returns (out: Outcome)
      requires Valid()
      modifies Repr
      ensures Valid() && fresh(Repr - old(Repr))
      ensures (out, Model()) == GenericModel.Remove(old(Model()), ByValue(obj, asIndex))
    {
      out := octreeRoot.Remove(ByValue(obj, asIndex));
      Repr := Repr + octreeRoot.Repr;
    }

    /** Remove(Vector3 pos). */
    method RemoveByKey(pos: Point) returns (out: Outcome)
      requires Valid()
      modifies Repr
      ensures Valid() && fresh(Repr - old(Repr))
      ensures (out, Model()) == GenericModel.Remove(old(Model()), ByKey(pos))
    {
      out := octreeRoot.Remove(ByKey(pos));
      Repr := Repr + octreeRoot.Repr;
    }

    /** Remove(Vector3 pos, T obj). */
    method RemoveByKeyValue(pos: Point, obj: T) returns (out: Outcome)
      requires Valid()
      modifies Repr
      ensures Valid() && fresh(Repr - old(Repr))
      ensures (out, Model()) == GenericModel.Remove(old(Model()), ByKeyValue(pos, obj))
    {
      out := octreeRoot.Remove(ByKeyValue(pos, obj));
      Repr := Repr + octreeRoot.Repr;
    }
  }
}
