/** The tree object `RbTree`: the root (the end node's left child), the
    cached leftmost position behind `begin()`, the element count, and the
    operations the map forwards to. Iterators are (home, position) pairs;
    a position is the key of the node it points at, or the end node. */
module RbTrees {
  import opened Results
  import opened RbShape
  import opened RbNode
  import opened RbInsert
  import opened RbDelete

  /** A tree object. `id` stands for the object's address: iterators record
      it as their home, and `erase` and self-assignment compare against it. */
  datatype RbTree<V> = RbTree(id: nat, root: Tree<V>, leftmost: Pos, size: nat)

  /** An iterator: the tree it came from and the node it points at. */
  datatype Iter = Iter(home: nat, pos: Pos)

  /** The object invariant: a valid red-black search tree, `leftmost_` at
      the minimum (the end node when empty), and `size_` the node count. */
  predicate Valid<V>(t: RbTree<V>) {
    ValidTree(t.root) && t.leftmost == MinPos(t.root) && t.size == |Elems(t.root)|
  }

  /** An iterator the source can work with: it belongs to `t` and points at
      a live node or at the end node. */
  predicate ValidIter<V>(t: RbTree<V>, it: Iter) {
    it.home == t.id && (it.pos.At? ==> it.pos.key in Keys(t.root))
  }

  /** The position of index `i` of the in-order sequence; index `|s|` is the
      end node. */
  function PosAt<V>(s: seq<Entry<V>>, i: nat): Pos
    requires i <= |s|
  {
    if i == |s| then End else At(s[i].key)
  }

  /** The index of a position in the in-order sequence. */
  function IndexOf<V>(s: seq<Entry<V>>, pos: Pos): nat {
    if pos.End? then |s| else Rank(s, pos.key)
  }

  // ---------------------------------------------------------------------
  // construction, begin/end, size

  /** `init_`: an empty tree whose end node is also its leftmost node. */
  function Empty<V>(id: nat): (t: RbTree<V>)
    ensures Valid(t) && t.id == id && Elems(t.root) == []
  {
    RbTree(id, Nil, End, 0)
  }

  /** `clear`: destroy all nodes and start over, keeping the object. */
  function Clear<V>(t: RbTree<V>): (r: RbTree<V>)
    ensures Valid(r) && r.id == t.id && Elems(r.root) == [] && r.size == 0
  {
    RbTree(t.id, Nil, End, 0)
  }

  /** `operator=`: nothing happens on self-assignment; otherwise the other
      tree's nodes are cloned, its size copied and `leftmost_` recomputed as
      the minimum of the clone. */
  function Assign<V>(t: RbTree<V>, other: RbTree<V>): (r: RbTree<V>)
    requires Valid(other) && (t.id == other.id ==> t == other)
    ensures Valid(r) && r.id == t.id
    ensures Elems(r.root) == Elems(other.root) && r.size == other.size
    ensures t.id == other.id ==> r == t
  {
    if t.id == other.id then t
    else RbTree(t.id, other.root, MinPos(other.root), other.size)
  }

  /** `begin()`: the cached leftmost position, which is the first entry. */
  function Begin<V>(t: RbTree<V>): (it: Iter)
    requires Valid(t)
    ensures it.home == t.id && ValidIter(t, it)
    ensures it.pos == PosAt(Elems(t.root), 0)
  {
    IndexOfPosAt(Elems(t.root), 0);
    Iter(t.id, t.leftmost)
  }

  /** `end()`: the end node, one past the last entry. */
  function EndIter<V>(t: RbTree<V>): (it: Iter)
    ensures it.home == t.id && ValidIter(t, it)
    ensures it.pos == PosAt(Elems(t.root), |Elems(t.root)|)
  {
    Iter(t.id, End)
  }

  /** `empty()`: decided by the stored count. */
  function IsEmpty<V>(t: RbTree<V>): (b: bool)
    requires Valid(t)
    ensures b <==> |Elems(t.root)| == 0
    ensures b <==> t.root.Nil?
  {
    t.size == 0
  }

  // ---------------------------------------------------------------------
  // find and dereference

  /** `find`: the end iterator on an empty tree or a missing key, else an
      iterator to the node holding the key. */
  function FindIter<V>(t: RbTree<V>, k: int): (it: Iter)
    requires Valid(t)
    ensures it.home == t.id && ValidIter(t, it)
    ensures it.pos == if k in Keys(t.root) then At(k) else End
  {
    if t.size == 0 then Iter(t.id, End)
    else
      match Find(t.root, k)
      case None => Iter(t.id, End)
      case Some(z) => Iter(t.id, At(z.focus.entry.key))
  }

  /** `*it`: the entry stored in the node the iterator points at. */
  function Deref<V>(t: RbTree<V>, it: Iter): (e: Entry<V>)
    requires Valid(t) && ValidIter(t, it) && it.pos.At?
    ensures IndexOf(Elems(t.root), it.pos) < |Elems(t.root)|
    ensures e == Elems(t.root)[IndexOf(Elems(t.root), it.pos)] && e.key == it.pos.key
  {
    FindIndex(t.root, it.pos.key);
    Find(t.root, it.pos.key).value.focus.entry
  }

  // ---------------------------------------------------------------------
  // ++ and --

  /** `operator++`: throws at the end node, else moves to `Node::next`. */
  function Increment<V>(t: RbTree<V>, it: Iter): (r: Result<Iter>)
    requires Valid(t) && ValidIter(t, it)
    ensures r.Err? <==> it.pos.End?
    ensures r.Err? ==> r.error == InvalidIterator
    ensures r.Ok? ==> r.value.home == it.home &&
                      IndexOf(Elems(t.root), it.pos) < |Elems(t.root)| &&
                      r.value.pos == PosAt(Elems(t.root), IndexOf(Elems(t.root), it.pos) + 1)
  {
    if it.pos.End? then Err(InvalidIterator)
    else
      FindIndex(t.root, it.pos.key);
      Ok(Iter(it.home, Next(Find(t.root, it.pos.key).value)))
  }

  /** `operator--`: throws at the leftmost node (which is the end node of an
      empty tree); from the end node moves to the root's maximum, else to
      `Node::prev`. */
  function Decrement<V>(t: RbTree<V>, it: Iter): (r: Result<Iter>)
    requires Valid(t) && ValidIter(t, it)
    ensures r.Err? <==> IndexOf(Elems(t.root), it.pos) == 0
    ensures r.Err? ==> r.error == InvalidIterator
    ensures r.Ok? ==> r.value.home == it.home &&
                      0 < IndexOf(Elems(t.root), it.pos) <= |Elems(t.root)| &&
                      r.value.pos == PosAt(Elems(t.root), IndexOf(Elems(t.root), it.pos) - 1)
  {
    LeftmostIndex(t, it);
    if it.pos == t.leftmost then Err(InvalidIterator)
    else if it.pos.End? then Ok(Iter(it.home, At(Max(t.root).key)))
    else
      FindIndex(t.root, it.pos.key);
      Ok(Iter(it.home, Prev(Find(t.root, it.pos.key).value)))
  }

  // ---------------------------------------------------------------------
  // insert and erase

  /** `insert`: link a new node and rebalance, or report the node that
      already holds an equivalent key. Returns the tree, an iterator to the
      node holding the key, and whether a node was added. `leftmost_`
      changes when the old leftmost node, which had no left child, now has
      one: exactly when the new leaf was hung as its left child. */
  function Insert<V>(t: RbTree<V>, e: Entry<V>): (r: (RbTree<V>, Iter, bool))
    requires Valid(t)
    ensures Valid(r.0) && r.0.id == t.id
    ensures r.1 == Iter(t.id, At(e.key)) && ValidIter(r.0, r.1)
    ensures r.2 <==> e.key !in Keys(t.root)
    ensures !r.2 ==> r.0 == t
    ensures r.2 ==> var s, i := Elems(t.root), Rank(Elems(t.root), e.key);
                    Elems(r.0.root) == s[..i] + [e] + s[i..]
  {
    if t.root.Nil? then
      var root := Node(Black, Nil, e, Nil);
      assert Elems(root) == [e];
      (RbTree(t.id, root, At(e.key), t.size + 1), Iter(t.id, At(e.key)), true)
    else
      InsertAtOrdered(t.root, e.key);
      match InsertAt(t.root, e.key)
      case Occupied(z) =>
        KeysPlug(z.focus, z.path);
        NodeKeys(z.focus);
        (t, Iter(t.id, At(z.focus.entry.key)), false)
      case Vacant(q) =>
        InsertLinked(t, e, q);
        var hungUnderLeftmost := q[0].dir == L && At(q[0].entry.key) == t.leftmost;
        var root := Blacken(FixupInsert(Node(Red, Nil, e, Nil), q));
        var leftmost := if hungUnderLeftmost then At(e.key) else t.leftmost;
        (RbTree(t.id, root, leftmost, t.size + 1), Iter(t.id, At(e.key)), true)
  }

  /** `erase`: throws for the end iterator or an iterator of another tree;
      otherwise moves `leftmost_` to its successor if it is the erased node,
      unlinks the node and decrements the count. */
  function Erase<V>(t: RbTree<V>, it: Iter): (r: Result<RbTree<V>>)
    requires Valid(t) && (it.home == t.id ==> ValidIter(t, it))
    ensures r.Err? <==> it.pos.End? || it.home != t.id
    ensures r.Err? ==> r.error == InvalidIterator
    ensures r.Ok? ==> Valid(r.value) && r.value.id == t.id &&
                      var s, i := Elems(t.root), Rank(Elems(t.root), it.pos.key);
                      i < |s| && s[i].key == it.pos.key &&
                      Elems(r.value.root) == s[..i] + s[i + 1..]
  {
    if it.pos.End? || it.home != t.id then Err(InvalidIterator)
    else
      var z := Find(t.root, it.pos.key).value;
      var leftmost := if it.pos == t.leftmost then Next(z) else t.leftmost;
      var root := Delete(z);
      EraseFacts(t, z, leftmost, root);
      Ok(RbTree(t.id, root, leftmost, t.size - 1))
  }

  /** Writing through the reference `*it` returns (`it->second = v`): the
      value of the entry with key `k` becomes `v`; keys, shape and colours
      stay. */
  function SetValue<V>(t: Tree<V>, k: int, v: V): (r: Tree<V>)
    ensures |Elems(r)| == |Elems(t)|
    ensures forall i :: 0 <= i < |Elems(t)| ==>
              Elems(r)[i] == if Elems(t)[i].key == k then Entry(k, v) else Elems(t)[i]
    ensures ColorOf(r) == ColorOf(t) && BH(r) == BH(t)
    ensures Balanced(r) == Balanced(t) && NoRedRed(r) == NoRedRed(t)
  {
    if t.Nil? then Nil
    else
      var l, rt := SetValue(t.left, k, v), SetValue(t.right, k, v);
      var e := if t.entry.key == k then Entry(k, v) else t.entry;
      var r := Node(t.color, l, e, rt);
      assert forall i :: 0 <= i < |Elems(t)| ==>
               Elems(r)[i] == if Elems(t)[i].key == k then Entry(k, v) else Elems(t)[i] by {
        forall i | 0 <= i < |Elems(t)|
          ensures Elems(r)[i] == if Elems(t)[i].key == k then Entry(k, v) else Elems(t)[i]
        {
          if i < |Elems(t.left)| {
            assert Elems(r)[i] == Elems(l)[i] && Elems(t)[i] == Elems(t.left)[i];
          } else if i == |Elems(t.left)| {
            assert Elems(r)[i] == e && Elems(t)[i] == t.entry;
          } else {
            var j := i - |Elems(t.left)| - 1;
            assert Elems(r)[i] == Elems(rt)[j] && Elems(t)[i] == Elems(t.right)[j];
          }
        }
      }
      r
  }

  /** `it->second = v` on the node an iterator points at. */
  function Write<V>(t: RbTree<V>, it: Iter, v: V): (r: RbTree<V>)
    requires Valid(t) && ValidIter(t, it) && it.pos.At?
    ensures Valid(r) && r.id == t.id && |Elems(r.root)| == |Elems(t.root)|
    ensures forall i :: 0 <= i < |Elems(t.root)| ==>
              Elems(r.root)[i] == if Elems(t.root)[i].key == it.pos.key then Entry(it.pos.key, v) else Elems(t.root)[i]
  {
    var root := SetValue(t.root, it.pos.key, v);
    var s, s' := Elems(t.root), Elems(root);
    assert Sorted(s') by {
      forall i, j | 0 <= i < j < |s'| ensures s'[i].key < s'[j].key {
        assert s'[i].key == s[i].key && s'[j].key == s[j].key;
      }
    }
    assert MinPos(root) == MinPos(t.root) by {
      if root.Node? {
        assert s'[0].key == s[0].key;
      }
    }
    RbTree(t.id, root, t.leftmost, t.size)
  }

  // ---------------------------------------------------------------------
  // Properties

  /** `++` then `--` from a node comes back to it. */
  lemma {:induction false} IncrementDecrement<V>(t: RbTree<V>, it: Iter)
    requires Valid(t) && ValidIter(t, it) && it.pos.At?
    ensures Increment(t, it).Ok? && ValidIter(t, Increment(t, it).value)
    ensures Decrement(t, Increment(t, it).value) == Ok(it)
  {
    var s := Elems(t.root);
    var i := IndexOf(s, it.pos);
    PosAtIndexOf(s, it.pos);
    assert i < |s|;
    IncrementStep(t, it);
    var fwd := Iter(it.home, PosAt(s, i + 1));
    IndexOfPosAt(s, i + 1);
    DecrementIndex(t, fwd);
    assert Iter(it.home, PosAt(s, IndexOf(s, fwd.pos) - 1)) == it;
  }

  /** `--` then `++` from any position but the first comes back to it; the
      end node is reached again from the last entry. */
  lemma {:induction false} DecrementIncrement<V>(t: RbTree<V>, it: Iter)
    requires Valid(t) && ValidIter(t, it) && it.pos != t.leftmost
    ensures Decrement(t, it).Ok? && ValidIter(t, Decrement(t, it).value)
    ensures Increment(t, Decrement(t, it).value) == Ok(it)
  {
    var s := Elems(t.root);
    var i := IndexOf(s, it.pos);
    DecrementStep(t, it);
    var back := Iter(it.home, PosAt(s, i - 1));
    IndexOfPosAt(s, i - 1);
    IncrementStep(t, back);
    PosAtIndexOf(s, it.pos);
    assert Iter(it.home, PosAt(s, IndexOf(s, back.pos) + 1)) == it;
  }


  /** The iterator `insert` returns points at the new entry, or at the entry
      already holding the key, which keeps its value; either way the key set
      gains the key. */
  lemma {:induction false} InsertDeref<V>(t: RbTree<V>, e: Entry<V>)
    requires Valid(t)
    ensures var r := Insert(t, e);
            Keys(r.0.root) == Keys(t.root) + {e.key} &&
            Deref(r.0, r.1) == if r.2 then e else Deref(t, FindIter(t, e.key))
  {
    var r := Insert(t, e);
    var s, i := Elems(t.root), Rank(Elems(t.root), e.key);
    if r.2 {
      var s' := Elems(r.0.root);
      KeysInsertAt(s, i, e);
      assert s'[i] == e;
      RankAt(s', i);
    } else {
      assert e.key in Keys(t.root);
    }
  }

  /** Erasing the entry just inserted under a fresh key gives back the
      contents the tree had before. */
  lemma {:induction false} InsertErase<V>(t: RbTree<V>, e: Entry<V>)
    requires Valid(t) && e.key !in Keys(t.root)
    ensures var r := Insert(t, e);
            Erase(r.0, r.1).Ok? && Elems(Erase(r.0, r.1).value.root) == Elems(t.root)
  {
    var r := Insert(t, e);
    var s, i := Elems(t.root), Rank(Elems(t.root), e.key);
    RemoveInserted(s, i, e, Elems(r.0.root));
  }

  /** In a sorted sequence made by placing `e` at index `i`, `e` has rank
      `i`, and taking index `i` out again gives the sequence back. */
  lemma {:induction false} RemoveInserted<V>(s: seq<Entry<V>>, i: nat, e: Entry<V>, s': seq<Entry<V>>)
    requires i <= |s| && s' == s[..i] + [e] + s[i..] && Sorted(s')
    ensures Rank(s', e.key) == i && s'[..i] + s'[i + 1..] == s
  {
    SplitAround(s', s[..i], e, s[i..]);
    RankAt(s', i);
    assert s[..i] + s[i..] == s;
  }

  /** `erase` removes exactly the key the iterator pointed at: `find` for it
      now gives the end iterator, and every other key stays. */
  lemma {:induction false} EraseFind<V>(t: RbTree<V>, it: Iter)
    requires Valid(t) && ValidIter(t, it) && it.pos.At?
    ensures Erase(t, it).Ok?
    ensures Keys(Erase(t, it).value.root) == Keys(t.root) - {it.pos.key}
    ensures FindIter(Erase(t, it).value, it.pos.key).pos == End
  {
    EraseKeys(t, it);
    var u := Erase(t, it).value;
    assert it.pos.key !in Keys(u.root);
  }

  lemma {:induction false} EraseKeys<V>(t: RbTree<V>, it: Iter)
    requires Valid(t) && ValidIter(t, it) && it.pos.At?
    ensures Erase(t, it).Ok? && Valid(Erase(t, it).value)
    ensures Keys(Erase(t, it).value.root) == Keys(t.root) - {it.pos.key}
  {
    var s, i := Elems(t.root), Rank(Elems(t.root), it.pos.key);
    var r := Erase(t, it);
    assert r.Ok? && Elems(r.value.root) == s[..i] + s[i + 1..] && s[i].key == it.pos.key;
    KeysRemoveAt(s, i);
  }

  // ---------------------------------------------------------------------
  // Proof steps

  /** The node at a position of a sorted tree sits at index
      `|Before| + |left subtree|` of the in-order sequence, which is also its
      key's rank; what lies in front and behind are the two halves. */
  lemma {:induction false} FocusIndex<V>(z: Zipper<V>)
    requires z.focus.Node? && Sorted(Elems(Plug(z.focus, z.path)))
    ensures var s := Elems(Plug(z.focus, z.path));
            var i := |Before(z.path)| + |Elems(z.focus.left)|;
            i < |s| && s[i] == z.focus.entry && Rank(s, z.focus.entry.key) == i &&
            s[..i] == Before(z.path) + Elems(z.focus.left) &&
            s[i + 1..] == Elems(z.focus.right) + After(z.path)
  {
    FocusSplit(z);
    RankAt(Elems(Plug(z.focus, z.path)), |Before(z.path) + Elems(z.focus.left)|);
  }

  /** Where the focus sits in the in-order sequence, sorted or not. */
  lemma {:induction false} FocusSplit<V>(z: Zipper<V>)
    requires z.focus.Node?
    ensures var s := Elems(Plug(z.focus, z.path));
            var i := |Before(z.path)| + |Elems(z.focus.left)|;
            i < |s| && s[i] == z.focus.entry &&
            s[..i] == Before(z.path) + Elems(z.focus.left) &&
            s[i + 1..] == Elems(z.focus.right) + After(z.path)
  {
    var s := Elems(Plug(z.focus, z.path));
    ElemsPlug(z.focus, z.path);
    SplitPlugged(s, Before(z.path), Elems(z.focus.left), z.focus.entry, Elems(z.focus.right), After(z.path));
  }

  /** The node `find` reaches for a present key sits at the key's rank, and
      its neighbours in the in-order sequence are `Node::next` and
      `Node::prev`. */
  lemma {:induction false} FindIndex<V>(root: Tree<V>, k: int)
    requires Sorted(Elems(root)) && k in Keys(root)
    ensures Find(root, k).Some?
    ensures var s, z, i := Elems(root), Find(root, k).value, Rank(Elems(root), k);
            i == IndexOf(s, At(k)) && i < |s| && s[i] == z.focus.entry &&
            Next(z) == PosAt(s, i + 1) &&
            (0 < i ==> Prev(z) == PosAt(s, i - 1))
  {
    var z := Find(root, k).value;
    FocusIndex(z);
    StepIndex(z);
  }

  /** `Node::next` and `Node::prev` from a node reach its neighbours in the
      in-order sequence. */
  lemma {:induction false} StepIndex<V>(z: Zipper<V>)
    requires z.focus.Node? && Sorted(Elems(Plug(z.focus, z.path)))
    ensures var s := Elems(Plug(z.focus, z.path));
            var i := |Before(z.path)| + |Elems(z.focus.left)|;
            i < |s| && Next(z) == PosAt(s, i + 1) && (0 < i ==> Prev(z) == PosAt(s, i - 1))
  {
    FocusIndex(z);
    NextIndex(z);
    PrevIndex(z);
  }

  lemma {:induction false} NextIndex<V>(z: Zipper<V>)
    requires z.focus.Node?
    ensures var s := Elems(Plug(z.focus, z.path));
            var i := |Before(z.path)| + |Elems(z.focus.left)|;
            i < |s| && Next(z) == PosAt(s, i + 1)
  {
    FocusSplit(z);
    PosAtAfter(Elems(Plug(z.focus, z.path)), |Before(z.path)| + |Elems(z.focus.left)|,
               Elems(z.focus.right) + After(z.path));
  }

  /** The position behind index `i` is the first entry of what follows it. */
  lemma {:induction false} PosAtAfter<V>(s: seq<Entry<V>>, i: nat, behind: seq<Entry<V>>)
    requires i < |s| && s[i + 1..] == behind
    ensures PosAt(s, i + 1) == if |behind| == 0 then End else At(behind[0].key)
  {
    if i + 1 < |s| {
      assert behind[0] == s[i + 1];
    }
  }

  /** The position in front of index `i > 0` is the last entry before it. */
  lemma {:induction false} PosAtBefore<V>(s: seq<Entry<V>>, i: nat, front: seq<Entry<V>>)
    requires 0 < i <= |s| && s[..i] == front
    ensures PosAt(s, i - 1) == At(front[|front| - 1].key)
  {
    assert front[|front| - 1] == s[i - 1];
  }

  lemma {:induction false} PrevIndex<V>(z: Zipper<V>)
    requires z.focus.Node?
    ensures var s := Elems(Plug(z.focus, z.path));
            var i := |Before(z.path)| + |Elems(z.focus.left)|;
            i < |s| && (0 < i ==> Prev(z) == PosAt(s, i - 1))
  {
    FocusSplit(z);
    var i := |Before(z.path)| + |Elems(z.focus.left)|;
    if 0 < i {
      PosAtBefore(Elems(Plug(z.focus, z.path)), i, Before(z.path) + Elems(z.focus.left));
    }
  }

  /** `--` from any position but the leftmost one, whose index `i` is then
      positive, gives the position of index `i - 1`. */
  lemma {:induction false} DecrementStep<V>(t: RbTree<V>, it: Iter)
    requires Valid(t) && ValidIter(t, it) && it.pos != t.leftmost
    ensures var s := Elems(t.root);
            0 < IndexOf(s, it.pos) <= |s| &&
            Decrement(t, it) == Ok(Iter(it.home, PosAt(s, IndexOf(s, it.pos) - 1)))
  {
    LeftmostIndex(t, it);
    DecrementIndex(t, it);
  }

  lemma {:induction false} DecrementIndex<V>(t: RbTree<V>, it: Iter)
    requires Valid(t) && ValidIter(t, it) && 0 < IndexOf(Elems(t.root), it.pos)
    ensures var s := Elems(t.root);
            IndexOf(s, it.pos) <= |s| &&
            Decrement(t, it) == Ok(Iter(it.home, PosAt(s, IndexOf(s, it.pos) - 1)))
  {
  }

  /** `++` from a position with index `i < |s|` gives the position of index
      `i + 1`. */
  lemma {:induction false} IncrementStep<V>(t: RbTree<V>, it: Iter)
    requires Valid(t) && ValidIter(t, it) && IndexOf(Elems(t.root), it.pos) < |Elems(t.root)|
    ensures var s := Elems(t.root);
            Increment(t, it) == Ok(Iter(it.home, PosAt(s, IndexOf(s, it.pos) + 1)))
  {
  }

  /** The leftmost position is the position of index 0. */
  lemma {:induction false} LeftmostIndex<V>(t: RbTree<V>, it: Iter)
    requires Valid(t) && ValidIter(t, it)
    ensures it.pos == t.leftmost <==> IndexOf(Elems(t.root), it.pos) == 0
    ensures IndexOf(Elems(t.root), it.pos) <= |Elems(t.root)|
    ensures it.pos.End? && t.root.Node? ==> Max(t.root).key == Elems(t.root)[|Elems(t.root)| - 1].key
  {
    var s := Elems(t.root);
    if it.pos.At? {
      KeysOfIndex(s, it.pos.key);
      var j :| 0 <= j < |s| && s[j].key == it.pos.key;
      RankAt(s, j);
      if t.root.Node? {
        assert t.leftmost == At(s[0].key);
        if j != 0 {
          assert s[0].key < s[j].key;
        }
      }
    }
  }

  /** Positions and indices are inverse to each other on a sorted sequence. */
  lemma {:induction false} IndexOfPosAt<V>(s: seq<Entry<V>>, i: nat)
    requires Sorted(s) && i <= |s|
    ensures IndexOf(s, PosAt(s, i)) == i
    ensures PosAt(s, i).At? ==> PosAt(s, i).key in KeysOf(s)
  {
    if i < |s| {
      RankAt(s, i);
      KeysOfIndex(s, s[i].key);
    }
  }

  lemma {:induction false} PosAtIndexOf<V>(s: seq<Entry<V>>, pos: Pos)
    requires Sorted(s) && (pos.At? ==> pos.key in KeysOf(s))
    ensures IndexOf(s, pos) <= |s| && PosAt(s, IndexOf(s, pos)) == pos
  {
    if pos.At? {
      KeysOfIndex(s, pos.key);
      var j :| 0 <= j < |s| && s[j].key == pos.key;
      RankAt(s, j);
    }
  }

  /** What the insertion of a fresh key does: the new leaf's slot splits the
      in-order sequence at the key's rank, the result is valid, and the
      leftmost test picks out exactly the case of a new minimum. */
  lemma {:induction false} InsertLinked<V>(t: RbTree<V>, e: Entry<V>, q: Path<V>)
    requires Valid(t) && t.root.Node? && InsertAt(t.root, e.key) == Vacant(q)
    ensures |q| > 0 && q[|q| - 1].color == Black
    ensures var s, i := Elems(t.root), Rank(Elems(t.root), e.key);
            var root := Blacken(FixupInsert(Node(Red, Nil, e, Nil), q));
            var hungUnderLeftmost := q[0].dir == L && At(q[0].entry.key) == t.leftmost;
            ValidTree(root) && Elems(root) == s[..i] + [e] + s[i..] && e.key in Keys(root) &&
            MinPos(root) == (if hungUnderLeftmost then At(e.key) else t.leftmost)
  {
    var s, i := Elems(t.root), Rank(Elems(t.root), e.key);
    LinkedTree(t.root, e, q);
    SlotSplit(s, Before(q), After(q), e);
    var root := FixupInsert(Node(Red, Nil, e, Nil), q);
    assert Elems(root) == s[..i] + [e] + s[i..];
    assert Elems(root)[i] == e;
    KeysOfIndex(Elems(root), e.key);
    LeftmostLink(s, q, i);
  }

  /** Hanging a Red leaf into the vacant slot and running the fixup gives a
      valid tree whose in-order sequence has the new entry between the
      entries in front of the slot and those behind it. */
  lemma {:induction false} LinkedTree<V>(root0: Tree<V>, e: Entry<V>, q: Path<V>)
    requires ValidTree(root0) && root0.Node? && InsertAt(root0, e.key) == Vacant(q)
    ensures |q| > 0 && q[|q| - 1].color == Black
    ensures Elems(root0) == Before(q) + After(q)
    ensures AllBelow(Before(q), e.key) && AllAbove(After(q), e.key)
    ensures var root := FixupInsert(Node(Red, Nil, e, Nil), q);
            ValidTree(root) && Blacken(root) == root &&
            Elems(root) == Before(q) + [e] + After(q)
  {
    var leaf := Node(Red, Nil, e, Nil);
    ColorPlug(Nil, q);
    InsertAtOrdered(root0, e.key);
    ElemsPlug(Nil, q);
    ElemsPlug(leaf, q);
    assert Elems(leaf) == [e];
    FixupInsertStart(root0, Zipper(leaf, q));
    FixupInsertValid(leaf, q);
    assert Elems(root0) == Before(q) + After(q);
    SortedSplit(Before(q), After(q));
    SortedJoin(Before(q), e, After(q));
  }

  /** A split of a sorted sequence around a key it lacks is the split at the
      key's rank. */
  lemma {:induction false} SlotSplit<V>(s: seq<Entry<V>>, a: seq<Entry<V>>, b: seq<Entry<V>>, e: Entry<V>)
    requires Sorted(s) && s == a + b && AllBelow(a, e.key) && AllAbove(b, e.key)
    ensures var i := Rank(s, e.key);
            s[..i] == a && s[i..] == b
  {
    RankAppend(a, b, e.key);
    RankAllBelow(a, e.key);
    RankNoneBelow(b, e.key);
    assert s[..|a|] == a && s[|a|..] == b;
  }

  /** The new leaf hangs as the left child of the first entry's node exactly
      when it goes in front of every entry. */
  lemma {:induction false} LeftmostLink<V>(s: seq<Entry<V>>, q: Path<V>, i: nat)
    requires Sorted(s) && |s| > 0 && |q| > 0 && i <= |s|
    requires Before(q) == s[..i] && After(q) == s[i..]
    ensures q[0].dir == L && q[0].entry.key == s[0].key <==> i == 0
  {
    if q[0].dir == L {
      assert After(q) == [q[0].entry] + Elems(q[0].sib) + After(q[1..]);
      assert i < |s| && s[i] == q[0].entry;
      if i != 0 {
        assert s[0].key < s[i].key;
      }
    } else {
      assert |Before(q)| > 0;
    }
  }

  /** What erasing the node at `z` does: the entry at its rank is dropped,
      the result is valid, and the successor taken when the leftmost node
      goes is the new minimum. */
  lemma {:induction false} EraseFacts<V>(t: RbTree<V>, z: Zipper<V>, leftmost: Pos, root: Tree<V>)
    requires Valid(t) && z.focus.Node? && Plug(z.focus, z.path) == t.root
    requires leftmost == if At(z.focus.entry.key) == t.leftmost then Next(z) else t.leftmost
    requires ValidTree(root) && Elems(root) == Before(z.path) + Elems(z.focus.left) + Elems(z.focus.right) + After(z.path)
    ensures var s, i := Elems(t.root), Rank(Elems(t.root), z.focus.entry.key);
            i < |s| && s[i].key == z.focus.entry.key &&
            Elems(root) == s[..i] + s[i + 1..] &&
            leftmost == MinPos(root) && t.size - 1 == |Elems(root)|
  {
    var s, i := Elems(t.root), Rank(Elems(t.root), z.focus.entry.key);
    EraseContents(z, root);
    assert i == |Before(z.path)| + |Elems(z.focus.left)|;
    EraseLeftmost(s, i, t.leftmost, Next(z), leftmost, root);
  }

  lemma {:induction false} EraseContents<V>(z: Zipper<V>, root: Tree<V>)
    requires z.focus.Node?
    requires Elems(root) == Before(z.path) + Elems(z.focus.left) + Elems(z.focus.right) + After(z.path)
    ensures var s, j := Elems(Plug(z.focus, z.path)), |Before(z.path)| + |Elems(z.focus.left)|;
            j < |s| && s[j] == z.focus.entry &&
            Elems(root) == s[..j] + s[j + 1..] &&
            Next(z) == PosAt(s, j + 1)
    ensures var s := Elems(Plug(z.focus, z.path));
            Sorted(s) ==> Rank(s, z.focus.entry.key) == |Before(z.path)| + |Elems(z.focus.left)|
  {
    var s, j := Elems(Plug(z.focus, z.path)), |Before(z.path)| + |Elems(z.focus.left)|;
    FocusSplit(z);
    NextIndex(z);
    DropAt(s, j, Before(z.path), Elems(z.focus.left), Elems(z.focus.right), After(z.path));
    if Sorted(s) {
      RankAt(s, j);
    }
  }

  /** Dropping index `i` from a sequence whose two sides are `a + b` and
      `c + d` leaves `a + b + c + d`. */
  lemma {:induction false} DropAt<T>(s: seq<T>, i: nat, a: seq<T>, b: seq<T>, c: seq<T>, d: seq<T>)
    requires i < |s| && s[..i] == a + b && s[i + 1..] == c + d
    ensures s[..i] + s[i + 1..] == a + b + c + d
  {
    Regroup4(a, b, c, d);
  }

  /** The leftmost position after dropping index `i`: the successor of the
      dropped entry when it was the first, else unchanged. */
  lemma {:induction false} EraseLeftmost<V>(s: seq<Entry<V>>, i: nat, old_: Pos, next: Pos, leftmost: Pos, root: Tree<V>)
    requires Sorted(s) && i < |s| && old_ == PosAt(s, 0) && next == PosAt(s, i + 1)
    requires leftmost == if At(s[i].key) == old_ then next else old_
    requires Elems(root) == s[..i] + s[i + 1..]
    ensures leftmost == MinPos(root)
  {
    if i == 0 {
      assert Elems(root) == s[1..];
    } else {
      assert s[0].key < s[i].key;
      assert Elems(root)[0] == s[0];
    }
  }
}
