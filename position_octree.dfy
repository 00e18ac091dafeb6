/**
 * Octree and Octree.OctreeNode as heap objects: each node keeps the fields of
 * the C# class, its children array of length 8, and a ghost footprint Repr.
 * The ghost field Model holds a node's subtree as a PositionModel.Node value,
 * and every method is proved to compute what the corresponding PositionModel
 * function says.
 */
module PositionOctree {
  import opened Geometry
  import opened Wrappers
  import opened PositionModel

  class OctreeNode {
    var center: Point          // nodePosition
    var radius: real           // nodeRadius
    var children: array<OctreeNode?>
    var capacity: int          // maxNodesInPartition
    var count: int             // currentNodesInPartition
    var depth: int             // currentDepth
    var maxDepth: int
    var positions: seq<Point>
    var objects: seq<GameObject>
    var divided: bool          // hasBeenDivided
    ghost var Repr: set<object>
    ghost var Model: Node      // the subtree as a PositionModel value

    /** Every object added to Repr since the footprint `before` is newly allocated. */
    twostate predicate Grown(before: set<object>)
      reads this
    {
      forall o :: o in Repr && o !in before ==> fresh(o)
    }

    ghost predicate Shape()
      reads this`Repr, this`children
    {
      this in Repr && children in Repr && children.Length == 8
    }

    /**
     * Children 0..n-1 are present, valid, own disjoint parts of Repr that leave
     * out this node and its array, and have kids[0..n-1] as their models.
     */
    ghost predicate ValidChildren(n: int, kids: seq<Node>)
      reads this`Repr, this`children, Repr - {this}
      requires 0 <= n <= 8
      decreases Repr, 1
    {
      && Shape() && |kids| == 8
      && (forall i :: 0 <= i < n ==>
            && children[i] != null && children[i] != this && children[i] in Repr && children[i] in children[i].Repr
            && children[i].Repr <= Repr && this !in children[i].Repr && children !in children[i].Repr
            && children[i].Valid() && children[i].Model == kids[i])
      && (forall i, j :: 0 <= i < j < n ==> children[i].Repr !! children[j].Repr)
    }

    /** The fields other than the children agree with Model. */
    ghost predicate FieldsMatch()
      reads this
    {
      Model == Node(center, radius, capacity, count, depth, maxDepth, positions, objects, divided, Model.children)
    }

    /**
     * A divided node has eight valid children whose models are its model's
     * children; an undivided one holds only nulls and its model has no children.
     */
    ghost predicate Valid()
      reads this, Repr
      decreases Repr, 2
    {
      && Shape() && FieldsMatch()
      && if divided then |Model.children| == 8 && ValidChildren(8, Model.children)
         else Model.children == [] && forall i :: 0 <= i < 8 ==> children[i] == null
    }

    /** `new OctreeNode()` together with the field assignments its creator makes. */
    constructor (c: Point, r: real, cap: int, d: int, md: int)
      ensures Valid() && fresh(Repr)
      ensures Model == Fresh(c, r, cap, d, md)
    {
      center, radius, capacity, depth, maxDepth := c, r, cap, d, md;
      count := 0;
      positions, objects := [], [];
      divided := false;
      children := new OctreeNode?[8](_ => null);
      Repr := {this, children};
      Model := Fresh(c, r, cap, d, md);
    }

    predicate IsInsideBoundingBox(p: Point)
      reads this
    {
      InBox(center, radius, p)
    }

    function GetNodesInPartition(): nat
      reads this
    {
      |positions|
    }

    method InsertPosition(p: Point, obj: Option<GameObject> := None) returns (ok: bool)
      requires Valid()
      modifies Repr
      ensures Valid() && Grown(old(Repr))
      ensures (ok, Model) == Insert(old(Model), p, obj)
      decreases Entries(Model), Entries(Model) + Size(Model) + 1, 1
    {
      if depth == 0 {
        return false;
      }
      if p in positions {
        return true;
      }
      if count < capacity && !divided {
        count := count + 1;
        positions := positions + [p];
        if obj.Some? {
          objects := objects + [obj.value];
        }
        Model := Model.(count := count, positions := positions, objects := objects);
        return true;
      }
      if !divided {
        Split();
        return true;
      }
      ghost var t := Model;
      for i := 0 to children.Length
        invariant Valid() && divided && Grown(old(Repr))
        invariant Model == t
        invariant InsertChildren(t.children, 0, p) == InsertChildren(t.children, i, p)
      {
        ChildBox(i, Model.children);
        if children[i].IsInsideBoundingBox(p) {
          ok := InsertIntoChild(i, p);
          if ok {
            return true;
          }
        }
      }
      return false;
    }

    /**
     * The frame argument shared by the steps that call into child i: when only
     * objects of child i's old footprint changed (and this node's own fields),
     * child i is still valid and its footprint grew only by fresh objects, the
     * other seven children are untouched and the children are still valid.
     */
    twostate lemma ChildReplaced(i: int, new kids: seq<Node>)
      requires 0 <= i < 8 && old(ValidChildren(8, kids))
      requires children == old(children) && unchanged(children)
      requires children[i].Valid() && children[i].Grown(old(children[i].Repr))
      requires unchanged(old(Repr) - old(children[i].Repr) - {this})
      requires Repr == old(Repr) + children[i].Repr
      ensures ValidChildren(8, kids[i := children[i].Model])
    {
    }

    /** One step of the loop over the children: `children[i].InsertPosition(position)`. */
    method InsertIntoChild(i: int, p: Point) returns (ok: bool)
      requires Valid() && divided && 0 <= i < 8
      modifies Repr
      ensures Valid() && divided && Grown(old(Repr))
      ensures var r := Insert(old(Model.children[i]), p, None);
        ok == r.0 && Model == old(Model).(children := old(Model.children)[i := r.1])
      ensures !ok ==> Model == old(Model)
      decreases Entries(Model), Entries(Model) + Size(Model) + 1, 0
    {
      ghost var kids := Model.children;
      EntriesOfUpdate(kids, i, kids[i]);
      ok := children[i].InsertPosition(p);
      Repr := Repr + children[i].Repr;
      Model := Model.(children := Model.children[i := children[i].Model]);
      ChildReplaced(i, kids);
      if !ok {
        assert Model.children == kids;
      }
    }

    /** The overflow branch of InsertPosition: SubDivide, PassDownObjects, then the node is marked divided. */
    method Split()
      requires Valid() && !divided
      modifies Repr
      ensures Valid() && Grown(old(Repr))
      ensures var r := PassDown(PositionModel.SubDivide(old(Model)), old(positions), 0);
        Model == old(Model).(children := r.0, positions := r.1, count := 0, divided := true)
      decreases Entries(Model), Entries(Model) + Size(Model) + 1, 0
    {
      assert FixedFields();
      SubDivide();
      SubDivideIsEmpty(Model);
      ghost var kids := PassDownObjects(PositionModel.SubDivide(Model));
      MarkDivided(kids);
    }

    /** The fields of a node that only its constructor and creator assign. */
    ghost predicate FixedFields()
      reads this`center, this`radius, this`capacity, this`depth, this`maxDepth, this`objects, this`Model
    {
      && Model.center == center && Model.radius == radius && Model.capacity == capacity
      && Model.depth == depth && Model.maxDepth == maxDepth && Model.objects == objects
    }

    /** The last two statements of the overflow branch: `count = 0; hasBeenDivided = true`. */
    method MarkDivided(ghost kids: seq<Node>)
      requires ValidChildren(8, kids) && FixedFields()
      modifies this`count, this`divided, this`Model
      ensures Valid()
      ensures Model == old(Model).(children := kids, positions := positions, count := 0, divided := true)
    {
      count := 0;
      divided := true;
      Model := Model.(children := kids, positions := positions, count := 0, divided := true);
    }

    /** Creates the eight children of SubDivide(); the node is not yet marked divided. */
    method SubDivide()
      requires Valid() && !divided
      modifies this`Repr, children
      ensures ValidChildren(8, PositionModel.SubDivide(Model)) && Grown(old(Repr))
    {
      SubDivideAt(Model);
      for i := 0 to 8
        invariant ValidChildren(i, PositionModel.SubDivide(Model)) && Grown(old(Repr))
      {
        AddChild(i, PositionModel.SubDivide(Model));
      }
    }

    /** One step of SubDivide: `children[i] = new OctreeNode()` and its set-up. */
    method AddChild(i: int, ghost kids: seq<Node>)
      requires 0 <= i < 8 && ValidChildren(i, kids)
      requires kids[i] == Fresh(ChildCenter(center, radius, i), radius / 2.0, capacity, depth - 1, maxDepth)
      modifies this`Repr, children
      ensures ValidChildren(i + 1, kids) && Grown(old(Repr))
    {
      var c := new OctreeNode(ChildCenter(center, radius, i), radius / 2.0, capacity, depth - 1, maxDepth);
      children[i] := c;
      Repr := Repr + c.Repr;
    }

    /**
     * PassDownObjects, for children whose models are kids; the new models of
     * the children are returned.
     */
    method PassDownObjects(ghost kids: seq<Node>) returns (ghost kids': seq<Node>)
      requires ValidChildren(8, kids) && EmptyFrom(kids, 0)
      modifies this`positions, this`Repr, Repr - {this}
      ensures ValidChildren(8, kids') && Grown(old(Repr))
      ensures (kids', positions) == PassDown(kids, old(positions), 0)
      decreases |positions|, |positions| + 1, 9
    {
      ghost var bound := |positions|;
      ghost var target := PassDown(kids, positions, 0);
      kids' := kids;
      EntriesOfZero(kids);
      for i := 0 to children.Length
        invariant ValidChildren(8, kids') && Grown(old(Repr))
        invariant EmptyFrom(kids', i)
        invariant |positions| <= bound
        invariant PassDown(kids', positions, i) == target
      {
        PassDownStep(kids', positions, i);
        kids' := PassDownChild(i, kids', bound);
      }
    }

    /** The inner loop of PassDownObjects: positions from the last to the first are offered to child i. */
    method PassDownChild(i: int, ghost kids: seq<Node>, ghost bound: nat) returns (ghost kids': seq<Node>)
      requires 0 <= i < 8 && ValidChildren(8, kids)
      requires Entries(kids[i]) == 0 && |positions| <= bound
      modifies this`positions, this`Repr, Repr - {this}
      ensures ValidChildren(8, kids') && Grown(old(Repr))
      ensures var r := PassDownInto(kids[i], old(positions), old(|positions|));
        kids' == kids[i := r.0] && positions == r.1
      decreases bound, bound + 1, 8
    {
      kids' := kids;
      var j := |positions| - 1;
      while j >= 0
        invariant -1 <= j < |positions|
        invariant ValidChildren(8, kids') && Grown(old(Repr))
        invariant kids' == kids[i := kids'[i]]
        invariant Entries(kids'[i]) + |positions| <= bound
        invariant PassDownInto(kids'[i], positions, j + 1) == PassDownInto(kids[i], old(positions), old(|positions|))
      {
        ChildBox(i, kids');
        if children[i].IsInsideBoundingBox(positions[j]) {
          kids' := PassOne(i, j, kids', bound);
        }
        j := j - 1;
      }
    }

    /** Child i's cube and its own list are the ones its model records. */
    lemma ChildBox(i: int, kids: seq<Node>)
      requires 0 <= i < 8 && ValidChildren(8, kids)
      ensures children[i].center == kids[i].center && children[i].radius == kids[i].radius
      ensures children[i].positions == kids[i].positions
    {
      assert children[i].Valid();
    }

    /**
     * One step of PassDownObjects: offer positions[j] to child i and drop it
     * from this node's list when the child accepts it.
     */
    method PassOne(i: int, j: int, ghost kids: seq<Node>, ghost bound: nat) returns (ghost kids': seq<Node>)
      requires ValidChildren(8, kids) && 0 <= i < 8 && 0 <= j < |positions|
      requires Entries(kids[i]) + |positions| <= bound
      modifies this`positions, this`Repr, Repr - {this}
      ensures ValidChildren(8, kids') && Grown(old(Repr))
      ensures var r := Insert(kids[i], old(positions[j]), None);
        && kids' == kids[i := r.1]
        && positions == if r.0 then old(positions[..j] + positions[j + 1..]) else old(positions)
      ensures Entries(kids'[i]) + |positions| <= Entries(kids[i]) + old(|positions|)
      decreases bound, bound + 1, 7
    {
      var accepted := children[i].InsertPosition(positions[j]);
      Repr := Repr + children[i].Repr;
      kids' := kids[i := children[i].Model];
      if accepted {
        positions := positions[..j] + positions[j + 1..];
      }
      ChildReplaced(i, kids);
    }

    method RemovePosition(p: Point) returns (ok: bool)
      requires Valid()
      modifies Repr
      ensures Valid() && Grown(old(Repr))
      ensures (ok, Model) == Remove(old(Model), p)
      decreases Size(Model), 2
    {
      if !divided {
        if p in positions {
          count := count - 1;
          positions := RemoveFirst(positions, p);
          Model := Model.(count := count, positions := positions);
          return true;
        }
      } else {
        ghost var t := Model;
        var activeChildCount := 8;
        for i := 0 to children.Length
          invariant Valid() && divided && Grown(old(Repr))
          invariant Model == t.(children := Model.children)
          invariant SizeOf(Model.children) <= SizeOf(t.children)
          invariant RemoveChildren(t.children, 0, p, 8) == RemoveChildren(Model.children, i, p, activeChildCount)
        {
          ok, activeChildCount := RemoveStep(i, p, activeChildCount);
          if ok {
            return true;
          }
        }
        if activeChildCount == 0 {
          Collapse();
        }
      }
      return false;
    }

    /** The end of a failed removal with no populated child: the children are dropped. */
    method Collapse()
      requires Valid() && divided
      modifies children, this`divided, this`Model
      ensures Valid() && Model == old(Model).(children := [], divided := false)
    {
      for i := 0 to children.Length
        invariant forall k :: 0 <= k < i ==> children[k] == null
        modifies children
      {
        children[i] := null;
      }
      divided := false;
      Model := Model.(children := [], divided := false);
    }

    /**
     * One pass of the loop over the children in RemovePosition: child i is
     * counted when its own list is empty, then asked to remove the position if
     * its cube contains it.
     */
    method RemoveStep(i: int, p: Point, active: int) returns (ok: bool, active': int)
      requires Valid() && divided && 0 <= i < 8
      modifies Repr
      ensures Valid() && divided && Grown(old(Repr))
      ensures Model == old(Model).(children := Model.children)
      ensures SizeOf(Model.children) <= SizeOf(old(Model.children))
      ensures ok ==> RemoveChildren(old(Model.children), i, p, active) == (true, Model.children, active')
      ensures !ok ==> RemoveChildren(old(Model.children), i, p, active) == RemoveChildren(Model.children, i + 1, p, active')
      decreases Size(Model), 1
    {
      active' := active;
      if children[i].GetNodesInPartition() == 0 {
        active' := active - 1;
      }
      ChildBox(i, Model.children);
      ok := false;
      if children[i].IsInsideBoundingBox(p) {
        ok := RemoveFromChild(i, p);
      }
    }

    /** `children[i].RemovePosition(position)`, with the child's new state recorded. */
    method RemoveFromChild(i: int, p: Point) returns (ok: bool)
      requires Valid() && divided && 0 <= i < 8
      modifies Repr
      ensures Valid() && divided && Grown(old(Repr))
      ensures var r := Remove(old(Model.children[i]), p);
        ok == r.0 && Model == old(Model).(children := old(Model.children)[i := r.1])
      ensures SizeOf(Model.children) <= SizeOf(old(Model.children))
      decreases Size(Model), 0
    {
      ghost var kids := Model.children;
      EntriesOfUpdate(kids, i, kids[i]);
      ok := children[i].RemovePosition(p);
      Repr := Repr + children[i].Repr;
      Model := Model.(children := Model.children[i := children[i].Model]);
      ChildReplaced(i, kids);
      EntriesOfUpdate(kids, i, children[i].Model);
    }
  }

  /** The Octree wrapper: a root node configured by the constructor, every call forwarded. */
  class Octree {
    var octreeRoot: OctreeNode
    ghost var Repr: set<object>

    ghost predicate Valid()
      reads this, Repr
    {
      && this in Repr && octreeRoot in Repr && octreeRoot.Repr <= Repr && this !in octreeRoot.Repr
      && octreeRoot.Valid()
    }

    /** The whole tree as a PositionModel value. */
    ghost function Model(): Node
      reads this, octreeRoot
    {
      octreeRoot.Model
    }

    constructor (center: Point, radius: real, maxNodesInPartition: int, maxDepth: int := 4)
      ensures Valid() && fresh(Repr)
      ensures Model() == Fresh(center, radius, maxNodesInPartition, maxDepth, maxDepth)
    {
      octreeRoot := new OctreeNode(center, radius, maxNodesInPartition, maxDepth, maxDepth);
      new;
      Repr := {this} + octreeRoot.Repr;
    }

    method InsertPosition(position: Point, obj: Option<GameObject> := None) returns (ok: bool)
      requires Valid()
      modifies Repr
      ensures Valid() && fresh(Repr - old(Repr))
      ensures (ok, Model()) == Insert(old(Model()), position, obj)
    {
      ok := octreeRoot.InsertPosition(position, obj);
      Repr := Repr + octreeRoot.Repr;
    }

    method RemovePosition(position: Point) returns (ok: bool)
      requires Valid()
      modifies Repr
      ensures Valid() && fresh(Repr - old(Repr))
      ensures (ok, Model()) == Remove(old(Model()), position)
    {
      ok := octreeRoot.RemovePosition(position);
      Repr := Repr + octreeRoot.Repr;
    }
  }
}
