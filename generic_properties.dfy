/**
 * Properties of the GenericModel operations: which calls can throw, the
 * Dictionary invariant (unique keys) in every node, and the leaf rules of the
 * three Remove overloads.
 */
module GenericProperties {
  import opened Geometry
  import opened Wrappers
  import opened GenericModel

  // ---------------------------------------------------------------------
  // Keys of a subtree

  function AllKeys<T>(t: Node<T>): set<Point>
    decreases t
  {
    Keys(t.objects) + AllKeysOf(t.children)
  }

  function AllKeysOf<T>(s: seq<Node<T>>): set<Point>
    decreases s
  {
    if s == [] then {} else AllKeysOf(s[..|s| - 1]) + AllKeys(s[|s| - 1])
  }

  lemma {:induction false} AllKeysOfUpdate<T>(s: seq<Node<T>>, i: int, c: Node<T>)
    requires 0 <= i < |s|
    ensures AllKeysOf(s[i := c]) <= AllKeysOf(s) + AllKeys(c)
    ensures AllKeys(s[i]) <= AllKeysOf(s)
    decreases |s|
  {
    if i < |s| - 1 {
      assert s[i := c][..|s| - 1] == s[..|s| - 1][i := c];
      AllKeysOfUpdate(s[..|s| - 1], i, c);
    } else {
      assert s[i := c][..|s| - 1] == s[..|s| - 1];
    }
  }

  /** A subtree without entries has no keys. */
  lemma {:induction false} NoEntriesNoKeys<T>(t: Node<T>)
    requires Entries(t) == 0
    ensures AllKeys(t) == {}
    decreases t, 1
  {
    NoEntriesNoKeysOf(t.children);
  }

  lemma {:induction false} NoEntriesNoKeysOf<T>(s: seq<Node<T>>)
    requires EntriesOf(s) == 0
    ensures AllKeysOf(s) == {}
    decreases s, 0
  {
    if s != [] {
      NoEntriesNoKeysOf(s[..|s| - 1]);
      NoEntriesNoKeys(s[|s| - 1]);
    }
  }

  /** Every node's dictionary has unique keys. */
  predicate KeysUnique<T>(t: Node<T>)
    decreases t
  {
    && UniqueKeys(t.objects)
    && forall k :: 0 <= k < |t.children| ==> KeysUnique(t.children[k])
  }

  predicate KidsKeysUnique<T>(kids: seq<Node<T>>)
  {
    forall k :: 0 <= k < |kids| ==> KeysUnique(kids[k])
  }

  // ---------------------------------------------------------------------
  // The association list

  /** With unique keys, List.Remove of the entry at index k removes exactly that index. */
  lemma {:induction false} RemoveEntryAt<T>(s: seq<Entry<T>>, k: int)
    requires UniqueKeys(s) && 0 <= k < |s|
    ensures RemoveEntry(s, s[k]) == s[..k] + s[k + 1..]
    decreases |s|
  {
    if k > 0 {
      assert s[0] != s[k];
      assert s[1..][k - 1] == s[k];
      RemoveEntryAt(s[1..], k - 1);
      assert [s[0]] + (s[1..][..k - 1] + s[1..][k..]) == s[..k] + s[k + 1..];
    }
  }

  /** Keys and uniqueness of a list with one entry in front. */
  lemma KeysCons<T>(e: Entry<T>, s: seq<Entry<T>>)
    ensures Keys([e] + s) == {e.0} + Keys(s)
    ensures UniqueKeys([e] + s) <==> e.0 !in Keys(s) && UniqueKeys(s)
  {
    var es := [e] + s;
    assert es[0] == e;
    forall x | x in Keys(es) ensures x in {e.0} + Keys(s) {
      var i :| 0 <= i < |es| && es[i].0 == x;
      if i > 0 { assert es[i] == s[i - 1]; }
    }
    forall x | x in Keys(s) ensures x in Keys(es) {
      var i :| 0 <= i < |s| && s[i].0 == x;
      assert es[i + 1] == s[i];
    }
    if UniqueKeys(es) {
      forall i, j | 0 <= i < j < |s| ensures s[i].0 != s[j].0 {
        assert es[i + 1] == s[i] && es[j + 1] == s[j];
      }
      forall x | x in Keys(s) ensures x != e.0 {
        var i :| 0 <= i < |s| && s[i].0 == x;
        assert es[i + 1] == s[i];
      }
    }
    if e.0 !in Keys(s) && UniqueKeys(s) {
      forall i, j | 0 <= i < j < |es| ensures es[i].0 != es[j].0 {
        assert es[j] == s[j - 1];
        if i > 0 { assert es[i] == s[i - 1]; }
      }
    }
  }

  /** Dictionary.Remove(key) keeps the other entries in order and takes the key out. */
  lemma {:induction false} RemoveKeyShrinks<T>(s: seq<Entry<T>>, k: Point)
    ensures Keys(RemoveKey(s, k)) <= Keys(s)
    ensures HasKey(s, k) ==> |RemoveKey(s, k)| == |s| - 1
    ensures !HasKey(s, k) ==> RemoveKey(s, k) == s
    ensures UniqueKeys(s) ==> UniqueKeys(RemoveKey(s, k)) && k !in Keys(RemoveKey(s, k))
    decreases |s|
  {
    if s != [] {
      assert s == [s[0]] + s[1..];
      KeysCons(s[0], s[1..]);
      if s[0].0 != k {
        RemoveKeyShrinks(s[1..], k);
        KeysCons(s[0], RemoveKey(s[1..], k));
      }
    }
  }

  /** Keys and uniqueness of a list with one entry appended (Dictionary.Add). */
  lemma KeysAppend<T>(s: seq<Entry<T>>, e: Entry<T>)
    ensures Keys(s + [e]) == Keys(s) + {e.0}
    ensures UniqueKeys(s + [e]) <==> UniqueKeys(s) && e.0 !in Keys(s)
  {
    var se := s + [e];
    assert se[|s|] == e;
    forall x | x in Keys(se) ensures x in Keys(s) + {e.0} {
      var i :| 0 <= i < |se| && se[i].0 == x;
      if i < |s| { assert se[i] == s[i]; }
    }
    forall x | x in Keys(s) ensures x in Keys(se) {
      var i :| 0 <= i < |s| && s[i].0 == x;
      assert se[i] == s[i];
    }
    if UniqueKeys(se) {
      forall i, j | 0 <= i < j < |s| ensures s[i].0 != s[j].0 {
        assert se[i] == s[i] && se[j] == s[j];
      }
      forall x | x in Keys(s) ensures x != e.0 {
        var i :| 0 <= i < |s| && s[i].0 == x;
        assert se[i] == s[i];
      }
    }
    if UniqueKeys(s) && e.0 !in Keys(s) {
      forall i, j | 0 <= i < j < |se| ensures se[i].0 != se[j].0 {
        assert se[i] == s[i];
        if j < |s| { assert se[j] == s[j]; }
      }
    }
  }

  /** Taking one entry out of a list keeps its keys unique and adds no key. */
  lemma UniqueRemoveAt<T>(s: seq<Entry<T>>, k: int)
    requires 0 <= k < |s|
    ensures Keys(s[..k] + s[k + 1..]) <= Keys(s)
    ensures UniqueKeys(s) ==> UniqueKeys(s[..k] + s[k + 1..])
  {
    var s' := s[..k] + s[k + 1..];
    assert forall m :: 0 <= m < |s'| ==> s'[m] == if m < k then s[m] else s[m + 1];
    forall x | x in Keys(s') ensures x in Keys(s) {
      var i :| 0 <= i < |s'| && s'[i].0 == x;
      if i < k { assert s'[i] == s[i]; } else { assert s'[i] == s[i + 1]; }
    }
  }

  // ---------------------------------------------------------------------
  // Which inserts can throw

  /**
   * Only Dictionary.Add of a key the subtree already holds makes Insert
   * throw: when every dictionary has unique keys, an Insert that throws met
   * a stored key, the keys stay unique, and no key other than pos appears.
   */
  lemma {:induction false} InsertThrowsOnlyOnStoredKey<T>(t: Node<T>, pos: Point, obj: T)
    requires KeysUnique(t)
    ensures var r := Insert(t, pos, obj);
      && KeysUnique(r.1)
      && AllKeys(r.1) <= AllKeys(t) + {pos}
      && (r.0.Threw? ==> r.0 == Threw(DuplicateKey) && pos in AllKeys(t))
    decreases Entries(t), Entries(t) + Size(t) + 1, 0
  {
    if t.depth == 0 || (pos, obj) in t.objects {
    } else if t.count < t.capacity && !t.divided {
      KeysAppend(t.objects, (pos, obj));
    } else if !t.divided {
      SubDivideIsEmpty(t);
      NoEntriesNoKeysOf(SubDivide(t));
      PassDownKeys(SubDivide(t), t.objects, 0);
    } else {
      InsertChildrenKeys(t.children, 0, pos, obj);
    }
  }

  lemma {:induction false} InsertChildrenKeys<T>(kids: seq<Node<T>>, i: int, pos: Point, obj: T)
    requires 0 <= i <= |kids| && KidsKeysUnique(kids)
    ensures var r := InsertChildren(kids, i, pos, obj);
      && KidsKeysUnique(r.1)
      && AllKeysOf(r.1) <= AllKeysOf(kids) + {pos}
      && (r.0.Threw? ==> r.0 == Threw(DuplicateKey) && pos in AllKeysOf(kids))
    decreases EntriesOf(kids), EntriesOf(kids) + SizeOf(kids) + 1, |kids| - i
  {
    if i < |kids| {
      if Contains(kids[i], pos) {
        EntriesOfUpdate(kids, i, kids[i]);
        var (out, c) := Insert(kids[i], pos, obj);
        EntriesOfUpdate(kids, i, c);
        InsertThrowsOnlyOnStoredKey(kids[i], pos, obj);
        AllKeysOfUpdate(kids, i, c);
        if out == Returned(false) {
          InsertChildrenKeys(kids, i + 1, pos, obj);
        }
      } else {
        InsertChildrenKeys(kids, i + 1, pos, obj);
      }
    }
  }

  /**
   * PassDownObjects never throws when the dictionary it hands down has
   * unique keys and the children from i on are empty: no child is offered a
   * key twice, and the list left over still has unique keys.
   */
  lemma {:induction false} PassDownKeys<T>(kids: seq<Node<T>>, ps: seq<Entry<T>>, i: int)
    requires 0 <= i <= |kids| && EmptyFrom(kids, i)
    requires KidsKeysUnique(kids) && UniqueKeys(ps)
    ensures var r := PassDown(kids, ps, i);
      && r.0.None? && KidsKeysUnique(r.1) && UniqueKeys(r.2)
      && AllKeysOf(r.1) + Keys(r.2) <= AllKeysOf(kids) + Keys(ps)
    decreases |ps|, |ps| + 1, |kids| - i
  {
    if i < |kids| {
      var r := PassDownInto(kids[i], ps, |ps|);
      NoEntriesNoKeys(kids[i]);
      PassDownIntoKeys(kids[i], ps, |ps|);
      AllKeysOfUpdate(kids, i, r.1);
      PassDownStep(kids, ps, i);
      PassDownKeys(kids[i := r.1], r.2, i + 1);
    }
  }

  lemma {:induction false} PassDownIntoKeys<T>(c: Node<T>, ps: seq<Entry<T>>, j: int)
    requires 0 <= j <= |ps| && KeysUnique(c) && UniqueKeys(ps)
    requires forall m :: 0 <= m < j ==> ps[m].0 !in AllKeys(c)
    ensures var r := PassDownInto(c, ps, j);
      && r.0.None? && KeysUnique(r.1) && UniqueKeys(r.2)
      && AllKeys(r.1) <= AllKeys(c) + Keys(ps) && Keys(r.2) <= Keys(ps)
    decreases Entries(c) + j, j, 0
  {
    if j > 0 {
      var k := j - 1;
      if Contains(c, ps[k].0) {
        var (out, c') := Insert(c, ps[k].0, ps[k].1);
        InsertThrowsOnlyOnStoredKey(c, ps[k].0, ps[k].1);
        if out.ok {
          RemoveEntryAt(ps, k);
          UniqueRemoveAt(ps, k);
          var ps' := ps[..k] + ps[k + 1..];
          forall m | 0 <= m < k ensures ps'[m].0 !in AllKeys(c') {
            assert ps'[m] == ps[m];
          }
          PassDownIntoKeys(c', ps', k);
        } else {
          PassDownIntoKeys(c', ps, k);
        }
      } else {
        PassDownIntoKeys(c, ps, k);
      }
    }
  }

  /** The overflow branch of Insert cannot throw: the dictionary it splits has unique keys. */
  lemma PassDownNeverThrows<T>(t: Node<T>)
    requires UniqueKeys(t.objects)
    ensures var r := PassDown(SubDivide(t), t.objects, 0);
      r.0.None? && KidsKeysUnique(r.1) && UniqueKeys(r.2)
  {
    SubDivideIsEmpty(t);
    PassDownKeys(SubDivide(t), t.objects, 0);
  }

  // ---------------------------------------------------------------------
  // Remove

  /** Every Remove overload keeps the keys unique and adds no key, even when it throws. */
  lemma {:induction false} RemoveKeepsKeysUnique<T>(t: Node<T>, req: Request<T>)
    requires KeysUnique(t)
    ensures KeysUnique(Remove(t, req).1) && AllKeys(Remove(t, req).1) <= AllKeys(t)
    decreases Size(t), 0, 0
  {
    if !t.divided {
      match req
      case ByKey(pos) => RemoveKeyShrinks(t.objects, pos);
      case ByKeyValue(pos, _) => RemoveKeyShrinks(t.objects, pos);
      case ByValue(_, asIndex) =>
        var pair := FirstAtIndex(t.objects, asIndex);
        if pair.Some? {
          RemoveKeyShrinks(t.objects, pair.value.0);
        }
    } else {
      var probe := ProbeKey(t.objects, req);
      if probe.Some? {
        RemoveChildrenKeys(t.children, 0, req, probe.value, 8);
      }
    }
  }

  lemma {:induction false} RemoveChildrenKeys<T>(kids: seq<Node<T>>, i: int, req: Request<T>, probe: Point, active: int)
    requires 0 <= i <= |kids| && KidsKeysUnique(kids)
    ensures var r := RemoveChildren(kids, i, req, probe, active);
      KidsKeysUnique(r.1) && AllKeysOf(r.1) <= AllKeysOf(kids)
    decreases SizeOf(kids), |kids| - i, 1
  {
    if i < |kids| {
      var active' := if |kids[i].objects| == 0 then active - 1 else active;
      if Contains(kids[i], probe) {
        var c := RemoveChildKeys(kids, i, req);
        if Remove(kids[i], req).0 == Returned(false) {
          RemoveChildrenKeys(kids[i := c], i + 1, req, probe, active');
        }
      } else {
        RemoveChildrenKeys(kids, i + 1, req, probe, active');
      }
    }
  }

  /** The call `children[i].Remove(...)` inside the loop: child i is replaced by its new state c. */
  lemma {:induction false} RemoveChildKeys<T>(kids: seq<Node<T>>, i: int, req: Request<T>) returns (c: Node<T>)
    requires 0 <= i < |kids| && KidsKeysUnique(kids)
    ensures c == Remove(kids[i], req).1
    ensures KidsKeysUnique(kids[i := c]) && AllKeysOf(kids[i := c]) <= AllKeysOf(kids)
    ensures SizeOf(kids[i := c]) <= SizeOf(kids)
    decreases SizeOf(kids), |kids| - i, 0
  {
    EntriesOfUpdate(kids, i, kids[i]);
    c := Remove(kids[i], req).1;
    EntriesOfUpdate(kids, i, c);
    RemoveKeepsKeysUnique(kids[i], req);
    AllKeysOfUpdate(kids, i, c);
  }

  /**
   * Remove(pos) on a leaf succeeds exactly when pos is a key; it then takes
   * out that one entry and nothing else, and the key is gone.
   */
  lemma LeafRemoveByKey<T>(t: Node<T>, pos: Point)
    requires !t.divided && UniqueKeys(t.objects)
    ensures var r := Remove(t, ByKey(pos));
      && (r.0 == Returned(true) <==> pos in Keys(t.objects))
      && r.0.Returned?
      && (r.0.ok ==> r.1.count == t.count - 1 && |r.1.objects| == |t.objects| - 1 && pos !in Keys(r.1.objects))
      && (!r.0.ok ==> r.1 == t)
  {
    RemoveKeyShrinks(t.objects, pos);
  }

  /**
   * Remove(pos, obj) on a leaf: it succeeds exactly when obj is stored under
   * some key, then lowers the counter and deletes the entry under pos (if
   * there is one) whatever value it holds; otherwise nothing changes. It
   * never throws.
   */
  lemma LeafRemoveByKeyValue<T>(t: Node<T>, pos: Point, obj: T)
    requires !t.divided && UniqueKeys(t.objects)
    ensures var r := Remove(t, ByKeyValue(pos, obj));
      && r.0 == Returned(HasValue(t.objects, obj))
      && (HasValue(t.objects, obj) ==>
            && r.1 == t.(count := t.count - 1, objects := RemoveKey(t.objects, pos))
            && pos !in Keys(r.1.objects)
            && Keys(r.1.objects) <= Keys(t.objects)
            && (HasKey(t.objects, pos) ==> |r.1.objects| == |t.objects| - 1)
            && (!HasKey(t.objects, pos) ==> r.1.objects == t.objects))
      && (!HasValue(t.objects, obj) ==> r.1 == t)
  {
    RemoveKeyShrinks(t.objects, pos);
  }

  /**
   * An instance of LeafRemoveByKeyValue: Remove(pos, obj) on a leaf succeeds
   * whenever obj is stored under any key,
   * and then deletes the entry under pos whatever it holds: here the entry
   * (q, b) goes although b is not obj, and with a key that is not stored the
   * counter still drops while the dictionary stays as it was.
   */
  lemma LeafRemoveByKeyValueIgnoresPairing(p: Point, q: Point, u: Point)
    requires p != q && u != p && u != q
    ensures var t := Node(p, 1.0, 4, 2, 2, 2, [(p, 'a'), (q, 'b')], false, []);
      && Remove(t, ByKeyValue(q, 'a')) == (Returned(true), t.(count := 1, objects := [(p, 'a')]))
      && Remove(t, ByKeyValue(u, 'a')) == (Returned(true), t.(count := 1))
  {
    var s := [(p, 'a'), (q, 'b')];
    assert s[0].1 == 'a';
    assert RemoveKey(s, q) == [(p, 'a')] by {
      assert s[1..] == [(q, 'b')];
    }
    assert !HasKey(s, u);
    RemoveKeyShrinks(s, u);
  }

  /**
   * Remove(T obj) can only succeed when obj equals, as an Int32, an index of
   * the dictionary it searches: for any T that is not int it never reports
   * success, and it throws wherever obj is stored in a leaf.
   */
  lemma RemoveByValueNeedsIndex<T>(t: Node<T>, obj: T, asIndex: Option<int>)
    ensures var r := Remove(t, ByValue(obj, asIndex));
      && (r.0 == Returned(true) ==> asIndex.Some? && 0 <= asIndex.value)
      && (asIndex.None? && !t.divided && HasValue(t.objects, obj) ==> r == (Threw(NoElements), t.(count := t.count - 1)))
      && (asIndex.None? && t.divided ==> r == (Threw(NoElements), t))
    decreases Size(t), 0
  {
    if t.divided && asIndex.Some? {
      var probe := ProbeKey(t.objects, ByValue(obj, asIndex));
      if probe.Some? {
        RemoveChildrenByValue(t.children, 0, obj, asIndex, probe.value, 8);
      }
    }
  }

  lemma {:induction false} RemoveChildrenByValue<T>(kids: seq<Node<T>>, i: int, obj: T, asIndex: Option<int>, probe: Point, active: int)
    requires 0 <= i <= |kids|
    ensures var r := RemoveChildren(kids, i, ByValue(obj, asIndex), probe, active);
      r.0 == Returned(true) ==> asIndex.Some? && 0 <= asIndex.value
    decreases SizeOf(kids), |kids| - i
  {
    if i < |kids| {
      var active' := if |kids[i].objects| == 0 then active - 1 else active;
      if Contains(kids[i], probe) {
        EntriesOfUpdate(kids, i, kids[i]);
        var (out, c) := Remove(kids[i], ByValue(obj, asIndex));
        EntriesOfUpdate(kids, i, c);
        RemoveByValueNeedsIndex(kids[i], obj, asIndex);
        if out == Returned(false) {
          RemoveChildrenByValue(kids[i := c], i + 1, obj, asIndex, probe, active');
        }
      } else {
        RemoveChildrenByValue(kids, i + 1, obj, asIndex, probe, active');
      }
    }
  }

  // ---------------------------------------------------------------------
  // The leaf rules of Insert

  /**
   * The first branches of Insert: depth 0 rejects, a stored (key, value)
   * pair is accepted unchanged, a stored key with another value makes
   * Dictionary.Add throw after the counter has already been raised, and a
   * new key on a leaf with room is appended and counted.
   */
  lemma LeafInsertRules<T>(t: Node<T>, pos: Point, obj: T)
    ensures t.depth == 0 ==> Insert(t, pos, obj) == (Returned(false), t)
    ensures t.depth != 0 && (pos, obj) in t.objects ==> Insert(t, pos, obj) == (Returned(true), t)
    ensures t.depth != 0 && (pos, obj) !in t.objects && t.count < t.capacity && !t.divided ==>
      Insert(t, pos, obj) ==
        if pos in Keys(t.objects) then (Threw(DuplicateKey), t.(count := t.count + 1))
        else (Returned(true), t.(count := t.count + 1, objects := t.objects + [(pos, obj)]))
  {
  }

  /**
   * An insert of a new key into a full undivided node with depth left
   * reports success, marks the node divided and resets its counter, yet the
   * key is held nowhere afterwards: the tree holds only keys of the node's
   * own dictionary.
   */
  lemma OverflowDropsEntry<T>(t: Node<T>, pos: Point, obj: T)
    requires t.depth != 0 && !t.divided && t.count >= t.capacity
    requires UniqueKeys(t.objects) && pos !in Keys(t.objects)
    ensures var r := Insert(t, pos, obj);
      && r.0 == Returned(true) && r.1.divided && r.1.count == 0 && |r.1.children| == 8
      && AllKeys(r.1) <= Keys(t.objects) && pos !in AllKeys(r.1)
  {
    SubDivideIsEmpty(t);
    NoEntriesNoKeysOf(SubDivide(t));
    PassDownKeys(SubDivide(t), t.objects, 0);
  }

  // ---------------------------------------------------------------------
  // Which child takes an entry

  /** A child that contains pos and does more than return false when offered it. */
  predicate Accepts<T(==)>(c: Node<T>, pos: Point, obj: T)
  {
    Contains(c, pos) && Insert(c, pos, obj).0 != Returned(false)
  }

  /** The first child from i on that contains pos and accepts it, or |kids|. */
  function FirstAccepting<T(==)>(kids: seq<Node<T>>, i: int, pos: Point, obj: T): (k: int)
    requires 0 <= i <= |kids|
    ensures i <= k <= |kids|
    ensures k < |kids| ==> Accepts(kids[k], pos, obj)
    ensures forall m :: i <= m < k ==> !Accepts(kids[m], pos, obj)
    decreases |kids| - i
  {
    if i == |kids| || Accepts(kids[i], pos, obj) then i else FirstAccepting(kids, i + 1, pos, obj)
  }

  /**
   * The divided branch of Insert hands the entry to the first child, in
   * index order, that contains it and does not return false; that child's
   * outcome (true, or its exception) is the call's and only that child
   * changes. When no child accepts, the call returns false.
   */
  lemma {:induction false} InsertChildrenTakesFirst<T>(kids: seq<Node<T>>, i: int, pos: Point, obj: T)
    requires 0 <= i <= |kids|
    ensures var k := FirstAccepting(kids, i, pos, obj);
      InsertChildren(kids, i, pos, obj) ==
        if k < |kids| then (Insert(kids[k], pos, obj).0, kids[k := Insert(kids[k], pos, obj).1])
        else (Returned(false), kids)
    decreases |kids| - i
  {
    if i < |kids| && !Accepts(kids[i], pos, obj) {
      InsertChildrenTakesFirst(kids, i + 1, pos, obj);
    }
  }

  /**
   * The divided branch of Remove ends in something other than false exactly
   * when some child from i on contains the probe key and its own Remove ends
   * in something other than false.
   */
  lemma {:induction false} RemoveChildrenStopsIff<T>(kids: seq<Node<T>>, i: int, req: Request<T>, probe: Point, active: int)
    requires 0 <= i <= |kids|
    ensures RemoveChildren(kids, i, req, probe, active).0 != Returned(false) <==>
      exists k :: i <= k < |kids| && Contains(kids[k], probe) && Remove(kids[k], req).0 != Returned(false)
    decreases |kids| - i
  {
    if i < |kids| {
      var active' := if |kids[i].objects| == 0 then active - 1 else active;
      if Contains(kids[i], probe) {
        var (out, c) := Remove(kids[i], req);
        if out == Returned(false) {
          RemoveChildrenStopsIff(kids[i := c], i + 1, req, probe, active');
          assert forall k :: i < k < |kids| ==> kids[i := c][k] == kids[k];
        }
      } else {
        RemoveChildrenStopsIff(kids, i + 1, req, probe, active');
      }
    }
  }

  // ---------------------------------------------------------------------
  // The collapse rule

  /** How many of kids[i..] have an empty own dictionary (GetNodesInPartition() == 0). */
  function EmptyOwnCount<T>(kids: seq<Node<T>>, i: int): nat
    requires 0 <= i <= |kids|
    decreases |kids| - i
  {
    if i == |kids| then 0
    else (if |kids[i].objects| == 0 then 1 else 0) + EmptyOwnCount(kids, i + 1)
  }

  lemma {:induction false} EmptyOwnCountUpdate<T>(kids: seq<Node<T>>, i: int, c: Node<T>, j: int)
    requires 0 <= i < j <= |kids|
    ensures EmptyOwnCount(kids[i := c], j) == EmptyOwnCount(kids, j)
    decreases |kids| - j
  {
    if j < |kids| {
      EmptyOwnCountUpdate(kids, i, c, j + 1);
    }
  }

  /** All of kids[i..] have an empty own dictionary exactly when the count reaches its maximum. */
  lemma {:induction false} EmptyOwnCountFull<T>(kids: seq<Node<T>>, i: int)
    requires 0 <= i <= |kids|
    ensures EmptyOwnCount(kids, i) <= |kids| - i
    ensures EmptyOwnCount(kids, i) == |kids| - i <==> forall k :: i <= k < |kids| ==> |kids[k].objects| == 0
    decreases |kids| - i
  {
    if i < |kids| {
      EmptyOwnCountFull(kids, i + 1);
    }
  }

  /**
   * When every probed child returns false, the loop of Remove has subtracted
   * one for every child whose own dictionary was empty when it was visited,
   * which is its dictionary before the loop.
   */
  lemma {:induction false} RemoveChildrenCountsEmpty<T>(kids: seq<Node<T>>, i: int, req: Request<T>, probe: Point, active: int)
    requires 0 <= i <= |kids|
    ensures var r := RemoveChildren(kids, i, req, probe, active);
      r.0 == Returned(false) ==> r.2 == active - EmptyOwnCount(kids, i)
    decreases |kids| - i
  {
    if i < |kids| {
      var active' := if |kids[i].objects| == 0 then active - 1 else active;
      if Contains(kids[i], probe) {
        var (out, c) := Remove(kids[i], req);
        if out == Returned(false) {
          RemoveChildrenCountsEmpty(kids[i := c], i + 1, req, probe, active');
          EmptyOwnCountUpdate(kids, i, c, i + 1);
        }
      } else {
        RemoveChildrenCountsEmpty(kids, i + 1, req, probe, active');
      }
    }
  }

  /**
   * Remove on a divided node: when First() finds no probe key nothing
   * changes; a call that ends otherwise than false keeps the node divided;
   * one that returns false turns it back into a leaf exactly when all eight
   * children had an empty own dictionary, and the collapsed node keeps only
   * its own dictionary.
   */
  lemma CollapseRule<T>(t: Node<T>, req: Request<T>)
    requires t.divided && |t.children| == 8
    ensures var r := Remove(t, req);
      && (ProbeKey(t.objects, req).None? ==> r == (Threw(NoElements), t))
      && (r.0 != Returned(false) ==> r.1.divided)
      && (r.0 == Returned(false) ==> (!r.1.divided <==> forall k :: 0 <= k < 8 ==> |t.children[k].objects| == 0))
      && (!r.1.divided ==> r.1 == t.(children := [], divided := false) && Entries(r.1) == |t.objects|)
  {
    var probe := ProbeKey(t.objects, req);
    if probe.Some? {
      RemoveChildrenCountsEmpty(t.children, 0, req, probe.value, 8);
      EmptyOwnCountFull(t.children, 0);
    }
  }

  // ---------------------------------------------------------------------
  // The depth budget

  lemma {:induction false} InsertChildrenAtDepthZero<T>(kids: seq<Node<T>>, i: int, pos: Point, obj: T)
    requires 0 <= i <= |kids| && forall k :: i <= k < |kids| ==> kids[k].depth == 0
    ensures InsertChildren(kids, i, pos, obj) == (Returned(false), kids)
    decreases |kids| - i
  {
    if i < |kids| {
      InsertChildrenAtDepthZero(kids, i + 1, pos, obj);
    }
  }

  lemma {:induction false} PassDownIntoAtDepthZero<T>(c: Node<T>, ps: seq<Entry<T>>, j: int)
    requires c.depth == 0 && 0 <= j <= |ps|
    ensures PassDownInto(c, ps, j) == (None, c, ps)
  {
    if j > 0 {
      PassDownIntoAtDepthZero(c, ps, j - 1);
    }
  }

  lemma {:induction false} PassDownAtDepthZero<T>(kids: seq<Node<T>>, ps: seq<Entry<T>>, i: int)
    requires 0 <= i <= |kids| && EmptyFrom(kids, i) && UniqueKeys(ps)
    requires forall k :: i <= k < |kids| ==> kids[k].depth == 0
    ensures PassDown(kids, ps, i) == (None, kids, ps)
    decreases |kids| - i
  {
    if i < |kids| {
      PassDownIntoAtDepthZero(kids[i], ps, |ps|);
      assert kids[i := kids[i]] == kids;
      PassDownAtDepthZero(kids, ps, i + 1);
    }
  }

  /**
   * The children of a depth-1 node have depth 0 and reject everything: a
   * divided depth-1 node accepts only a pair its own dictionary already
   * holds, and a depth-1 leaf that overflows keeps every entry in its own
   * dictionary.
   */
  lemma DepthOneKeepsEntriesInParent<T>(t: Node<T>, pos: Point, obj: T)
    requires t.depth == 1
    requires t.divided ==> forall k :: 0 <= k < |t.children| ==> t.children[k].depth == 0
    ensures t.divided ==> Insert(t, pos, obj) == (Returned((pos, obj) in t.objects), t)
    ensures !t.divided && (pos, obj) !in t.objects && t.count >= t.capacity && UniqueKeys(t.objects) ==>
      Insert(t, pos, obj) == (Returned(true), t.(children := SubDivide(t), count := 0, divided := true))
  {
    if t.divided {
      InsertChildrenAtDepthZero(t.children, 0, pos, obj);
    } else if (pos, obj) !in t.objects && t.count >= t.capacity && UniqueKeys(t.objects) {
      SubDivideAt(t);
      SubDivideIsEmpty(t);
      PassDownAtDepthZero(SubDivide(t), t.objects, 0);
    }
  }
}
