/** Rebalancing after an insertion (`RbTree::fixupInsert_`), in the three
    cases of Cormen et al., chapter 13: a Red uncle (recolour and climb two
    levels), a zig-zag child (rotate at the parent first) and a straight child
    (recolour and rotate at the grandparent). */
module RbInsert {
  import opened RbShape
  import opened RbNode

  /** What holds while `fixupInsert_` runs at node `z` with ancestors `p`:
      `z` is a red-black subtree, every path is balanced, and the only
      possible break of the red-red rule is a Red `z` under a Red parent. The
      root stays Black; below the root `z` is Red. */
  ghost predicate InsertFixupInv<V>(z: Tree<V>, p: Path<V>) {
    z.Node? && IsRB(z) && PathBalanced(p, BH(z)) && PathNoRedRed(p, Black) &&
    (|p| > 0 ==> z.color == Red && p[|p| - 1].color == Black) &&
    (|p| == 0 ==> z.color == Black)
  }

  /** The Red-uncle case: parent and uncle turn Black, the grandparent turns
      Red (Black if it is the root); the result is the grandparent's subtree,
      where the fixup continues. */
  function RecolorUp<V>(z: Tree<V>, p: Path<V>): (g: Tree<V>)
    requires |p| >= 2
    ensures Elems(g) == Elems(Attach(p[1], Attach(p[0], z)))
    ensures g.Node? && g.color == (if |p| == 2 then Black else Red)
    ensures ColorOf(Child(g, p[1].dir)) == Black && ColorOf(Child(g, Opp(p[1].dir))) == Black
  {
    var parent, grand := p[0], p[1];
    var uncle := grand.sib;
    var pNode := Attach(parent.(color := Black), z);
    var uncle' := if uncle.Node? then uncle.(color := Black) else uncle;
    Attach(grand.(color := if |p| == 2 then Black else Red, sib := uncle'), pNode)
  }

  /** The Black-uncle cases: a zig-zag `z` is first rotated above its parent;
      then the node now under the grandparent turns Black, the grandparent Red,
      and a rotation at the grandparent lifts that node into its place. */
  function RotateUp<V>(z: Tree<V>, p: Path<V>): (r: Tree<V>)
    requires z.Node? && |p| >= 2
    ensures Elems(r) == Elems(Attach(p[1], Attach(p[0], z)))
    ensures r.Node? && r.color == Black
  {
    var parent, grand := p[0], p[1];
    var pNode := Attach(parent, z);
    var pNode' := if parent.dir != grand.dir then Rotate(pNode, grand.dir, false) else pNode;
    var top := pNode'.(color := Black);
    var gNode := Attach(grand.(color := Red), top);
    assert Elems(top) == Elems(pNode) by {
      assert Elems(top) == Elems(pNode');
    }
    assert Elems(gNode) == Elems(Attach(grand, pNode)) by {
      ElemsAttach(grand.(color := Red), top);
      ElemsAttach(grand, pNode);
    }
    assert Child(gNode, Opp(Opp(grand.dir))) == top;
    Rotate(gNode, Opp(grand.dir), |p| == 2)
  }

  /** `fixupInsert_` at node `z` with ancestors `p`, returning the whole tree.
      It stops at the root or under a parent that is not Red. */
  function FixupInsert<V>(z: Tree<V>, p: Path<V>): (r: Tree<V>)
    requires z.Node? && (|p| > 0 ==> p[|p| - 1].color == Black)
    decreases |p|
    ensures Elems(r) == Elems(Plug(z, p))
  {
    if |p| == 0 then z
    else if p[0].color != Red then Plug(z, p)
    else
      assert |p| >= 2;
      PlugTwo(z, p);
      var uncle := p[1].sib;
      if uncle.Node? && uncle.color == Red then
        var g := RecolorUp(z, p);
        ElemsPlugSame(g, Attach(p[1], Attach(p[0], z)), p[2..]);
        FixupInsert(g, p[2..])
      else
        var r := RotateUp(z, p);
        ElemsPlugSame(r, Attach(p[1], Attach(p[0], z)), p[2..]);
        Plug(r, p[2..])
  }



  // ---------------------------------------------------------------------
  // The red-black invariants

  /** The facts the invariant gives about the parent and grandparent frames
      when the parent is Red. */
  lemma {:induction false} RedParentFacts<V>(z: Tree<V>, p: Path<V>)
    requires InsertFixupInv(z, p) && |p| > 0 && p[0].color == Red
    ensures |p| >= 2 && p[1].color == Black
    ensures Balanced(p[0].sib) && BH(p[0].sib) == BH(z) && ColorOf(p[0].sib) == Black && NoRedRed(p[0].sib)
    ensures Balanced(p[1].sib) && BH(p[1].sib) == BH(z) && NoRedRed(p[1].sib)
    ensures PathBalanced(p[2..], BH(z) + 1) && PathNoRedRed(p[2..], Black)
    ensures |p| > 2 ==> p[|p| - 1].color == Black
  {
    var h := BH(z);
    assert p[|p| - 1].color == Black;
    assert |p| != 1;
    assert p[1..][0] == p[1] && p[1..][1..] == p[2..];
    assert PathNoRedRed(p[1..], Red);
    assert p[1].color == Black;
    assert PathBalanced(p[1..], h);
    assert PathBalanced(p[2..], h + 1);
    assert PathNoRedRed(p[2..], Black);
    if |p| > 2 {
      assert p[|p| - 1] == p[2..][|p[2..]| - 1];
    }
  }

  /** The Red-uncle case re-establishes the invariant two levels up. */
  lemma {:induction false} RecolorUpInv<V>(z: Tree<V>, p: Path<V>)
    requires InsertFixupInv(z, p) && |p| > 0 && p[0].color == Red
    requires |p| >= 2 && p[1].sib.Node? && p[1].sib.color == Red
    ensures InsertFixupInv(RecolorUp(z, p), p[2..])
  {
    RedParentFacts(z, p);
    var h := BH(z);
    var parent, grand := p[0], p[1];
    var uncle := grand.sib;
    var pNode := Attach(parent.(color := Black), z);
    var uncle' := uncle.(color := Black);
    assert Balanced(pNode) && BH(pNode) == h + 1 && NoRedRed(pNode);
    assert Balanced(uncle') && BH(uncle') == h + 1 && NoRedRed(uncle');
    var g := RecolorUp(z, p);
    assert g == Attach(grand.(color := g.color, sib := uncle'), pNode);
    assert IsRB(g) && BH(g) == h + 1 + BlackOf(g.color);
  }

  /** The Black-uncle cases leave a Black-rooted red-black subtree of the
      grandparent's black height. */
  lemma {:induction false} RotateUpInv<V>(z: Tree<V>, p: Path<V>)
    requires InsertFixupInv(z, p) && |p| > 0 && p[0].color == Red
    requires |p| >= 2 && !(p[1].sib.Node? && p[1].sib.color == Red)
    ensures IsRB(RotateUp(z, p)) && BH(RotateUp(z, p)) == BH(z) + 1
  {
    RedParentFacts(z, p);
    var h := BH(z);
    var parent, grand := p[0], p[1];
    var s, u := parent.sib, grand.sib;
    assert ColorOf(u) == Black;
    assert ColorOf(z.left) == Black && ColorOf(z.right) == Black;
    assert BH(z.left) == h && BH(z.right) == h && Balanced(z.left) && Balanced(z.right);
    assert NoRedRed(z.left) && NoRedRed(z.right);
    var r := RotateUp(z, p);
    if parent.dir == grand.dir {
      // straight: the parent rises
      if grand.dir == L {
        var inner := Node(Red, s, grand.entry, u);
        assert r == Node(Black, z, parent.entry, inner);
        assert Balanced(inner) && BH(inner) == h && NoRedRed(inner);
      } else {
        var inner := Node(Red, u, grand.entry, s);
        assert r == Node(Black, inner, parent.entry, z);
        assert Balanced(inner) && BH(inner) == h && NoRedRed(inner);
      }
    } else {
      // zig-zag: z rises
      if grand.dir == L {
        var a, b := Node(Red, s, parent.entry, z.left), Node(Red, z.right, grand.entry, u);
        assert r == Node(Black, a, z.entry, b);
        assert Balanced(a) && BH(a) == h && NoRedRed(a);
        assert Balanced(b) && BH(b) == h && NoRedRed(b);
      } else {
        var a, b := Node(Red, u, grand.entry, z.left), Node(Red, z.right, parent.entry, s);
        assert r == Node(Black, a, z.entry, b);
        assert Balanced(a) && BH(a) == h && NoRedRed(a);
        assert Balanced(b) && BH(b) == h && NoRedRed(b);
      }
    }
  }

  /** `fixupInsert_` restores the red-black rules and leaves the root Black. */
  lemma {:induction false} FixupInsertValid<V>(z: Tree<V>, p: Path<V>)
    requires InsertFixupInv(z, p)
    ensures IsRB(FixupInsert(z, p)) && ColorOf(FixupInsert(z, p)) == Black
    decreases |p|
  {
    if |p| == 0 {
    } else if p[0].color != Red {
      assert PathNoRedRed(p, Red);
      BalancedPlug(z, p);
      NoRedRedPlug(z, p);
      ColorPlug(z, p);
    } else {
      RedParentFacts(z, p);
      var uncle := p[1].sib;
      if uncle.Node? && uncle.color == Red {
        RecolorUpInv(z, p);
        FixupInsertValid(RecolorUp(z, p), p[2..]);
      } else {
        var r := RotateUp(z, p);
        RotateUpInv(z, p);
        BalancedPlug(r, p[2..]);
        NoRedRedPlug(r, p[2..]);
        ColorPlug(r, p[2..]);
      }
    }
  }

  /** A freshly linked Red leaf in a valid tree satisfies the fixup invariant. */
  lemma {:induction false} FixupInsertStart<V>(root: Tree<V>, leaf: Zipper<V>)
    requires ValidTree(root) && |leaf.path| > 0 && Plug(Nil, leaf.path) == root
    requires leaf.focus.Node? && leaf.focus.color == Red && leaf.focus.left.Nil? && leaf.focus.right.Nil?
    ensures InsertFixupInv(leaf.focus, leaf.path)
  {
    BalancedPlug(Nil, leaf.path);
    NoRedRedPlug(Nil, leaf.path);
    ColorPlug(Nil, leaf.path);
  }
}
