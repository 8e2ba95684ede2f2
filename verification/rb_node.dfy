/** The per-node primitives of the red-black tree (`RbTree::Node` and the two
    rotations): search, the unbalanced insertion step, minimum and maximum,
    in-order stepping by climbing parent links, and rotation. */
module RbNode {
  import opened Results
  import opened RbShape

  /** A position an iterator can hold: a node (named by its key, which is
      unique in the tree) or the end node. */
  datatype Pos = At(key: int) | End

  // ---------------------------------------------------------------------
  // min / max

  /** `Node::min` as a position inside `t`: keep going left. The path it
      returns leads from that node back up to `t`. */
  function MinZipper<V>(t: Tree<V>): (z: Zipper<V>)
    requires t.Node?
    ensures z.focus.Node? && z.focus.left.Nil?
    ensures Plug(z.focus, z.path) == t
    ensures Before(z.path) == []
    ensures Elems(t) == Elems(z.focus) + After(z.path)
    ensures forall i :: 0 <= i < |z.path| ==> z.path[i].dir == L
  {
    if t.left.Nil? then
      ElemsPlug(t, []);
      Zipper(t, [])
    else
      var z := MinZipper(t.left);
      var f := Frame(L, t.color, t.entry, t.right);
      PlugAppend(z.focus, z.path, [f]);
      BeforeAppend(z.path, [f]);
      AfterAppend(z.path, [f]);
      ElemsPlug(z.focus, z.path + [f]);
      Zipper(z.focus, z.path + [f])
  }

  /** `Node::max` as a position inside `t`: keep going right. */
  function MaxZipper<V>(t: Tree<V>): (z: Zipper<V>)
    requires t.Node?
    ensures z.focus.Node? && z.focus.right.Nil?
    ensures Plug(z.focus, z.path) == t
    ensures After(z.path) == []
    ensures Elems(t) == Before(z.path) + Elems(z.focus)
  {
    if t.right.Nil? then
      ElemsPlug(t, []);
      Zipper(t, [])
    else
      var z := MaxZipper(t.right);
      var f := Frame(R, t.color, t.entry, t.left);
      PlugAppend(z.focus, z.path, [f]);
      BeforeAppend(z.path, [f]);
      AfterAppend(z.path, [f]);
      ElemsPlug(z.focus, z.path + [f]);
      Zipper(z.focus, z.path + [f])
  }

  /** The entry of `Node::min`: the first entry in order. */
  function Min<V>(t: Tree<V>): (e: Entry<V>)
    requires t.Node?
    ensures e == Elems(t)[0]
  {
    var z := MinZipper(t);
    assert Elems(z.focus) == [z.focus.entry] + Elems(z.focus.right);
    z.focus.entry
  }

  /** The entry of `Node::max`: the last entry in order. */
  function Max<V>(t: Tree<V>): (e: Entry<V>)
    requires t.Node?
    ensures e == Elems(t)[|Elems(t)| - 1]
  {
    var z := MaxZipper(t);
    assert Elems(z.focus) == Elems(z.focus.left) + [z.focus.entry];
    z.focus.entry
  }

  /** Where `begin()` points: the minimum, or the end node of an empty tree. */
  function MinPos<V>(t: Tree<V>): Pos {
    if t.Nil? then End else At(Min(t).key)
  }

  // ---------------------------------------------------------------------
  // find

  /** `Node::find`: descend by the comparator until a node with an equivalent
      key turns up, or a null child is reached. The position found comes with
      the path back up to `t`. */
  function Find<V>(t: Tree<V>, k: int): (r: Option<Zipper<V>>)
    ensures r.Some? ==> r.value.focus.Node? && r.value.focus.entry.key == k
    ensures r.Some? ==> Plug(r.value.focus, r.value.path) == t
    ensures Sorted(Elems(t)) ==> (r.Some? <==> k in Keys(t))
  {
    if t.Nil? then None
    else
      NodeKeys(t);
      if Equiv(k, t.entry.key) then Some(Zipper(t, []))
      else
      var d := if Less(k, t.entry.key) then L else R;
      var f := Frame(d, t.color, t.entry, Child(t, Opp(d)));
      match Find(Child(t, d), k)
      case None => None
      case Some(z) =>
        PlugAppend(z.focus, z.path, [f]);
        Some(Zipper(z.focus, z.path + [f]))
  }

  // ---------------------------------------------------------------------
  // insert (the unbalanced step)

  /** Where `Node::insert` ends up for a key: at the node already holding an
      equivalent key, or at the empty child slot where the new node goes. */
  datatype Slot<V> = Occupied(found: Zipper<V>) | Vacant(path: Path<V>)

  /** The descent of `Node::insert` from the node `n`: compare, go left or
      right, recurse while the child exists. The position returned leads back
      up to `n`; the caller hangs the new Red leaf into a vacant slot. */
  function InsertAt<V>(n: Tree<V>, k: int): (r: Slot<V>)
    requires n.Node?
    decreases n
    ensures r.Occupied? ==>
              r.found.focus.Node? && Equiv(r.found.focus.entry.key, k) &&
              Plug(r.found.focus, r.found.path) == n
    ensures r.Vacant? ==> |r.path| > 0 && Plug(Nil, r.path) == n
  {
    if Equiv(k, n.entry.key) then Occupied(Zipper(n, []))
    else
      var d := if Less(k, n.entry.key) then L else R;
      var f := Frame(d, n.color, n.entry, Child(n, Opp(d)));
      var next := Child(n, d);
      assert Attach(f, next) == n by { if d == L {} else {} }
      if next.Nil? then Vacant([f])
      else
        match InsertAt(next, k)
        case Occupied(z) =>
          PlugAppend(z.focus, z.path, [f]);
          Occupied(Zipper(z.focus, z.path + [f]))
        case Vacant(q) =>
          PlugAppend(Nil, q, [f]);
          Vacant(q + [f])
  }

  /** On a sorted tree the descent finds a vacant slot exactly when the key
      is not stored, and then every entry in front of that slot lies below the
      key and every entry behind it above. */
  lemma {:induction false} InsertAtOrdered<V>(n: Tree<V>, k: int)
    requires n.Node? && Sorted(Elems(n))
    ensures InsertAt(n, k).Vacant? <==> k !in Keys(n)
    ensures InsertAt(n, k).Vacant? ==>
              var q := InsertAt(n, k).path;
              AllBelow(Before(q), k) && AllAbove(After(q), k)
    decreases n
  {
    NodeKeys(n);
    if !Equiv(k, n.entry.key) {
      var d := if Less(k, n.entry.key) then L else R;
      var f := Frame(d, n.color, n.entry, Child(n, Opp(d)));
      var next := Child(n, d);
      FrameOrdered(n, k);
      if next.Node? {
        InsertAtOrdered(next, k);
        var r := InsertAt(next, k);
        if r.Vacant? {
          var q := r.path;
          BeforeAppend(q, [f]);
          AfterAppend(q, [f]);
          BoundsAppend(Before([f]), Before(q), k);
          BoundsAppend(After(q), After([f]), k);
        }
      } else {
        assert Keys(next) == {};
      }
    }
  }

  /** One step of the descent: the entries the frame puts in front of the
      child lie below the key, those it puts behind lie above, and the key is
      stored in the node exactly when it is stored in that child. */
  lemma {:induction false} FrameOrdered<V>(n: Tree<V>, k: int)
    requires n.Node? && Sorted(Elems(n)) && !Equiv(k, n.entry.key)
    ensures var d := if Less(k, n.entry.key) then L else R;
            var f := Frame(d, n.color, n.entry, Child(n, Opp(d)));
            AllBelow(Before([f]), k) && AllAbove(After([f]), k) &&
            (k in Keys(n) <==> k in Keys(Child(n, d)))
  {
    var d := if Less(k, n.entry.key) then L else R;
    var f := Frame(d, n.color, n.entry, Child(n, Opp(d)));
    assert [f][1..] == [];
    NodeKeys(n);
    SortedNode(n);
    if d == L {
      assert Before([f]) == [];
      assert After([f]) == [n.entry] + Elems(n.right);
      BoundsWeaken(Elems(n.right), n.entry.key, k);
      BoundsAppend([n.entry], Elems(n.right), k);
    } else {
      assert Before([f]) == Elems(n.left) + [n.entry];
      assert After([f]) == [];
      BoundsWeaken(Elems(n.left), n.entry.key, k);
      BoundsAppend(Elems(n.left), [n.entry], k);
    }
  }

  // ---------------------------------------------------------------------
  // next / prev

  /** The climbing loop of `Node::next`: go up while the node is a right
      child; the parent reached by a left step follows. Climbing past the root
      reaches the end node. */
  function ClimbNext<V>(p: Path<V>): (r: Pos)
    decreases |p|
    ensures r == if |After(p)| == 0 then End else At(After(p)[0].key)
  {
    if |p| == 0 then End
    else if p[0].dir == L then At(p[0].entry.key)
    else ClimbNext(p[1..])
  }

  /** The climbing loop of `Node::prev`: go up while the node is a left child.
      Climbing past the root would ask the end node for its parent, which does
      not exist; that case is `End` here and only the minimum reaches it. */
  function ClimbPrev<V>(p: Path<V>): (r: Pos)
    decreases |p|
    ensures r == if |Before(p)| == 0 then End else At(Before(p)[|Before(p)| - 1].key)
  {
    if |p| == 0 then End
    else if p[0].dir == R then At(p[0].entry.key)
    else ClimbPrev(p[1..])
  }

  /** `Node::next`: the minimum of the right subtree, else climb. The result is
      the first entry behind the node, or the end node when there is none. */
  function Next<V>(z: Zipper<V>): (r: Pos)
    requires z.focus.Node?
    ensures var behind := Elems(z.focus.right) + After(z.path);
            r == if |behind| == 0 then End else At(behind[0].key)
  {
    if z.focus.right.Node? then At(Min(z.focus.right).key) else ClimbNext(z.path)
  }

  /** `Node::prev`: the maximum of the left subtree, else climb. The result is
      the last entry in front of the node. */
  function Prev<V>(z: Zipper<V>): (r: Pos)
    requires z.focus.Node?
    ensures var front := Before(z.path) + Elems(z.focus.left);
            r == if |front| == 0 then End else At(front[|front| - 1].key)
  {
    if z.focus.left.Node? then At(Max(z.focus.left).key) else ClimbPrev(z.path)
  }

  // ---------------------------------------------------------------------
  // rotations

  /** `leftRotate_`: the right child `y` of `x` takes x's place, `x` becomes
      y's left child and takes over y's old left subtree. Node colours move
      with their nodes, except that installing `y` as the root (`setRoot_`)
      colours it Black. */
  function LeftRotate<V>(x: Tree<V>, isRoot: bool): (r: Tree<V>)
    requires x.Node? && x.right.Node?
    ensures Elems(r) == Elems(x)
    ensures r.Node? && r.left.Node? && r.entry == x.right.entry && r.left.entry == x.entry
    ensures r.color == (if isRoot then Black else x.right.color) && r.left.color == x.color
  {
    var y := x.right;
    Node(if isRoot then Black else y.color, Node(x.color, x.left, x.entry, y.left), y.entry, y.right)
  }

  /** `rightRotate_`: the mirror image of `LeftRotate`. */
  function RightRotate<V>(x: Tree<V>, isRoot: bool): (r: Tree<V>)
    requires x.Node? && x.left.Node?
    ensures Elems(r) == Elems(x)
    ensures r.Node? && r.right.Node? && r.entry == x.left.entry && r.right.entry == x.entry
    ensures r.color == (if isRoot then Black else x.left.color) && r.right.color == x.color
  {
    var y := x.left;
    Node(if isRoot then Black else y.color, y.left, y.entry, Node(x.color, y.right, x.entry, x.right))
  }

  /** Rotate at `x` so that `x` moves down to side `d` (`LeftRotate` for L). */
  function Rotate<V>(x: Tree<V>, d: Dir, isRoot: bool): (r: Tree<V>)
    requires x.Node? && Child(x, Opp(d)).Node?
    ensures Elems(r) == Elems(x)
    ensures r.Node? && r.entry == Child(x, Opp(d)).entry
    ensures Child(r, d).Node? && Child(r, d).entry == x.entry && Child(r, d).color == x.color
    ensures r.color == (if isRoot then Black else Child(x, Opp(d)).color)
  {
    if d == L then LeftRotate(x, isRoot) else RightRotate(x, isRoot)
  }
}
