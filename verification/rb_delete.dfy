/** Removal of a node (`RbTree::delete_`) and the rebalancing after it
    (`RbTree::fixupDelete_`), in the cases of Cormen et al., chapter 13: a Red
    sibling (rotate it above the parent), a Black sibling with two Black
    children (recolour and climb), and a Black sibling with a Red child
    (rotate at the sibling if only the near child is Red, then recolour and
    rotate at the parent). */
module RbDelete {
  import opened RbShape
  import opened RbNode

  /** What holds while `fixupDelete_` runs for the position `x` with ancestors
      `p`: `x` is a Black-rooted red-black subtree (possibly null) one Black
      node short of its sibling's side ("doubly black"), every other path is
      balanced, the red-red rule holds above, and the root is Black. The
      source passes the sibling `p[0].sib`; the model passes the position
      whose sibling it is. */
  ghost predicate DeleteFixupInv<V>(x: Tree<V>, p: Path<V>) {
    |p| > 0 && IsRB(x) && ColorOf(x) == Black &&
    PathBalanced(p, BH(x) + 1) && PathNoRedRed(p, Black) && p[|p| - 1].color == Black
  }

  /** The child on side `d` replaced by `c`. */
  function WithChild<V>(t: Tree<V>, d: Dir, c: Tree<V>): (r: Tree<V>)
    requires t.Node?
    ensures r.Node? && r.color == t.color && r.entry == t.entry
    ensures Child(r, d) == c && Child(r, Opp(d)) == Child(t, Opp(d))
  {
    if d == L then t.(left := c) else t.(right := c)
  }

  /** A Red sibling: it turns Black, the parent Red, and a rotation at the
      parent toward `x` lifts the sibling above it. The new sibling of `x` is
      the old sibling's near child (`neighbor->*left->*right`). Returns the
      new ancestors of `x`. */
  function RedSibling<V>(x: Tree<V>, p: Path<V>): (q: Path<V>)
    requires |p| > 0 && p[0].sib.Node?
    ensures |q| == |p| + 1 && q[0].color == Red && q[0].dir == p[0].dir && q[2..] == p[1..]
    ensures Plug(Attach(q[1], Attach(q[0], x)), q[2..]) ==
            Plug(Rotate(Attach(p[0].(color := Red, sib := p[0].sib.(color := Black)), x), p[0].dir, |p| == 1), p[1..])
  {
    var d := p[0].dir;
    var s := p[0].sib;
    var top := Rotate(Attach(p[0].(color := Red, sib := s.(color := Black)), x), d, |p| == 1);
    var lowered := Child(top, d);
    var q := [Frame(d, lowered.color, lowered.entry, Child(lowered, Opp(d))),
              Frame(d, top.color, top.entry, Child(top, Opp(d)))] + p[1..];
    assert q[2..] == p[1..];
    assert Attach(q[0], x) == lowered && Attach(q[1], lowered) == top by {
      if d == L {} else {}
    }
    q
  }

  /** The parent of `x` after recolouring a Black sibling with two Black
      children Red. */
  function ClimbParent<V>(x: Tree<V>, q: Path<V>): (r: Tree<V>)
    requires |q| > 0 && q[0].sib.Node?
    ensures Elems(r) == Elems(Attach(q[0], x)) && r.Node? && r.color == q[0].color
    ensures Child(r, q[0].dir) == x
    ensures Child(r, Opp(q[0].dir)).Node? && Child(r, Opp(q[0].dir)).color == Red
  {
    ElemsAttach(q[0].(sib := q[0].sib.(color := Red)), x);
    ElemsAttach(q[0], x);
    Attach(q[0].(sib := q[0].sib.(color := Red)), x)
  }

  /** A Black sibling with a Red child. If its far child is Black, the near
      child turns Black, the sibling Red, and a rotation at the sibling away
      from `x` lifts the near child. Then the sibling takes the parent's
      colour, the parent and the far child turn Black, and a rotation at the
      parent toward `x` finishes. Returns the subtree now in the parent's
      place. */
  function RotateFar<V>(x: Tree<V>, q: Path<V>): (top: Tree<V>)
    requires |q| > 0 && q[0].sib.Node?
    requires ColorOf(Child(q[0].sib, q[0].dir)) == Red || ColorOf(Child(q[0].sib, Opp(q[0].dir))) == Red
    ensures Elems(top) == Elems(Attach(q[0], x))
    ensures top.Node?
  {
    var d := q[0].dir;
    var s := q[0].sib;
    var s' :=
      if ColorOf(Child(s, Opp(d))) == Black then
        var near := Child(s, d);
        var t := WithChild(s, d, near.(color := Black)).(color := Red);
        assert Elems(t) == Elems(s) by { if d == L {} else {} }
        assert Child(t, Opp(Opp(d))) == near.(color := Black) by { if d == L {} else {} }
        Rotate(t, Opp(d), false)
      else s;
    var far := Child(s', Opp(d));
    var s'' := WithChild(s', Opp(d), far.(color := Black)).(color := q[0].color);
    assert Elems(s'') == Elems(s) by { if d == L {} else {} }
    var pNode := Attach(q[0].(color := Black, sib := s''), x);
    assert Elems(pNode) == Elems(Attach(q[0], x)) by {
      ElemsAttach(q[0].(color := Black, sib := s''), x);
      ElemsAttach(q[0], x);
    }
    Rotate(pNode, d, |q| == 1)
  }

  /** `fixupDelete_` for the doubly black position `x` with ancestors `p`,
      returning the whole tree, which is a red-black tree again. */
  function FixupDelete<V>(x: Tree<V>, p: Path<V>): (r: Tree<V>)
    requires DeleteFixupInv(x, p)
    decreases |p|
    ensures IsRB(r) && ColorOf(r) == Black
    ensures Elems(r) == Elems(Plug(x, p))
  {
    DeleteFixupFacts(x, p);
    var q := if p[0].sib.color == Red then RedSibling(x, p) else p;
    RedSiblingInv(x, p);
    assert Elems(Plug(x, q)) == Elems(Plug(x, p));
    DeleteFixupFacts(x, q);
    var s := q[0].sib;
    if ColorOf(s.left) == Black && ColorOf(s.right) == Black then
      if |q| == 1 || q[0].color == Red then
        ClimbStop(x, q);
        Plug(Blacken(ClimbParent(x, q)), q[1..])
      else
        ClimbOn(x, q);
        FixupDelete(ClimbParent(x, q), q[1..])
    else
      RotateStop(x, q);
      Plug(RotateFar(x, q), q[1..])
  }

  /** The subtree `top` put back under the frames `rest` gives a red-black
      tree with a Black root, when the frames fit it. */
  lemma {:induction false} Reattach<V>(top: Tree<V>, rest: Path<V>)
    requires IsRB(top) && PathBalanced(rest, BH(top)) && PathNoRedRed(rest, ColorOf(top))
    requires if |rest| == 0 then ColorOf(top) == Black else rest[|rest| - 1].color == Black
    ensures IsRB(Plug(top, rest)) && ColorOf(Plug(top, rest)) == Black
  {
    BalancedPlug(top, rest);
    NoRedRedPlug(top, rest);
    ColorPlug(top, rest);
  }

  /** Two Black nephews under a Red parent or at the root: recolouring and
      blackening the parent ends the fixup. */
  lemma {:induction false} ClimbStop<V>(x: Tree<V>, q: Path<V>)
    requires DeleteFixupInv(x, q) && ColorOf(q[0].sib) == Black
    requires q[0].sib.Node? && ColorOf(q[0].sib.left) == Black && ColorOf(q[0].sib.right) == Black
    requires |q| == 1 || q[0].color == Red
    ensures var r := Plug(Blacken(ClimbParent(x, q)), q[1..]);
            IsRB(r) && ColorOf(r) == Black && Elems(r) == Elems(Plug(x, q))
  {
    DeleteFixupFacts(x, q);
    var parent := ClimbParent(x, q);
    var done := Blacken(parent);
    assert done == parent.(color := Black);
    ClimbParentInv(x, q);
    assert Plug(x, q) == Plug(Attach(q[0], x), q[1..]);
    ElemsPlugSame(parent, Attach(q[0], x), q[1..]);
    assert Elems(done) == Elems(parent);
    ElemsPlugSame(done, parent, q[1..]);
    PathNoRedRedBlack(q[1..], q[0].color);
    Reattach(done, q[1..]);
  }

  /** Two Black nephews under a Black parent below the root: the parent
      becomes the doubly black position. */
  lemma {:induction false} ClimbOn<V>(x: Tree<V>, q: Path<V>)
    requires DeleteFixupInv(x, q) && ColorOf(q[0].sib) == Black
    requires q[0].sib.Node? && ColorOf(q[0].sib.left) == Black && ColorOf(q[0].sib.right) == Black
    requires |q| > 1 && q[0].color == Black
    ensures DeleteFixupInv(ClimbParent(x, q), q[1..])
    ensures Elems(Plug(ClimbParent(x, q), q[1..])) == Elems(Plug(x, q))
  {
    ClimbParentInv(x, q);
    assert Plug(x, q) == Plug(Attach(q[0], x), q[1..]);
    ElemsPlugSame(ClimbParent(x, q), Attach(q[0], x), q[1..]);
  }

  /** A Red nephew: the rotations end the fixup. */
  lemma {:induction false} RotateStop<V>(x: Tree<V>, q: Path<V>)
    requires DeleteFixupInv(x, q) && ColorOf(q[0].sib) == Black && q[0].sib.Node?
    requires ColorOf(q[0].sib.left) == Red || ColorOf(q[0].sib.right) == Red
    ensures ColorOf(Child(q[0].sib, q[0].dir)) == Red || ColorOf(Child(q[0].sib, Opp(q[0].dir))) == Red
    ensures var r := Plug(RotateFar(x, q), q[1..]);
            IsRB(r) && ColorOf(r) == Black && Elems(r) == Elems(Plug(x, q))
  {
    DeleteFixupFacts(x, q);
    assert ColorOf(Child(q[0].sib, q[0].dir)) == Red || ColorOf(Child(q[0].sib, Opp(q[0].dir))) == Red by {
      if q[0].dir == L {} else {}
    }
    var top := RotateFar(x, q);
    RotateFarInv(x, q);
    assert Plug(x, q) == Plug(Attach(q[0], x), q[1..]);
    ElemsPlugSame(top, Attach(q[0], x), q[1..]);
    Reattach(top, q[1..]);
  }


  // ---------------------------------------------------------------------
  // The red-black invariants

  /** What the invariant says about the parent frame and the frames above. */
  lemma {:induction false} DeleteFixupFacts<V>(x: Tree<V>, p: Path<V>)
    requires DeleteFixupInv(x, p)
    ensures p[0].sib.Node? && Balanced(p[0].sib) && BH(p[0].sib) == BH(x) + 1 && NoRedRed(p[0].sib)
    ensures p[0].color == Red ==> ColorOf(p[0].sib) == Black
    ensures PathBalanced(p[1..], BH(x) + 1 + BlackOf(p[0].color)) && PathNoRedRed(p[1..], p[0].color)
    ensures |p| == 1 ==> p[0].color == Black
    ensures |p| > 1 ==> p[1..][|p[1..]| - 1].color == Black
  {
    BHPositive(p[0].sib);
  }

  /** The Red-sibling case keeps the invariant, with a Red parent now. */
  lemma {:induction false} RedSiblingInv<V>(x: Tree<V>, p: Path<V>)
    requires DeleteFixupInv(x, p)
    ensures p[0].sib.Node? && p[0].sib.color == Red ==>
              DeleteFixupInv(x, RedSibling(x, p)) &&
              Elems(Plug(x, RedSibling(x, p))) == Elems(Plug(x, p))
  {
    DeleteFixupFacts(x, p);
    if p[0].sib.Node? && p[0].sib.color == Red {
      RedSiblingShape(x, p);
      RedSiblingContents(x, p);
    }
  }

  lemma {:induction false} RedSiblingShape<V>(x: Tree<V>, p: Path<V>)
    requires DeleteFixupInv(x, p) && p[0].sib.Node? && p[0].sib.color == Red
    ensures DeleteFixupInv(x, RedSibling(x, p))
  {
    DeleteFixupFacts(x, p);
    var h := BH(x);
    var d := p[0].dir;
    var s := p[0].sib;
    assert p[0].color == Black;
    var near, far := Child(s, d), Child(s, Opp(d));
    assert ColorOf(near) == Black && ColorOf(far) == Black;
    assert BH(near) == h + 1 && BH(far) == h + 1 && Balanced(near) && Balanced(far);
    assert NoRedRed(near) && NoRedRed(far);
    var q := RedSibling(x, p);
    assert q[0] == Frame(d, Red, p[0].entry, near) by { if d == L {} else {} }
    assert q[1] == Frame(d, Black, s.entry, far) by { if d == L {} else {} }
    assert q[1..][0] == q[1] && q[1..][1..] == p[1..];
    assert PathBalanced(q, h + 1);
    assert PathNoRedRed(q, Black);
    assert q[|q| - 1].color == Black;
  }

  lemma {:induction false} RedSiblingContents<V>(x: Tree<V>, p: Path<V>)
    requires |p| > 0 && p[0].sib.Node?
    ensures Elems(Plug(x, RedSibling(x, p))) == Elems(Plug(x, p))
  {
    var d := p[0].dir;
    var s := p[0].sib;
    var q := RedSibling(x, p);
    var pNode := Attach(p[0].(color := Red, sib := s.(color := Black)), x);
    assert Elems(pNode) == Elems(Attach(p[0], x)) by {
      ElemsAttach(p[0].(color := Red, sib := s.(color := Black)), x);
      ElemsAttach(p[0], x);
    }
    PlugTwo(x, q);
    ElemsPlugSame(Rotate(pNode, d, |p| == 1), Attach(p[0], x), p[1..]);
  }


  /** Recolouring a Black sibling with two Black children Red leaves a
      red-black parent subtree of the parent's colour; climbing from it keeps
      the invariant when the parent is Black and not the root. */
  lemma {:induction false} ClimbParentInv<V>(x: Tree<V>, q: Path<V>)
    requires DeleteFixupInv(x, q) && ColorOf(q[0].sib) == Black
    requires q[0].sib.Node? && ColorOf(q[0].sib.left) == Black && ColorOf(q[0].sib.right) == Black
    ensures Balanced(ClimbParent(x, q)) && BH(ClimbParent(x, q)) == BH(x) + BlackOf(q[0].color)
    ensures IsRB(ClimbParent(x, q).(color := Black)) && BH(ClimbParent(x, q).(color := Black)) == BH(x) + 1
    ensures |q| > 1 && q[0].color == Black ==> DeleteFixupInv(ClimbParent(x, q), q[1..])
  {
    DeleteFixupFacts(x, q);
    var h := BH(x);
    var s := q[0].sib;
    var sr := s.(color := Red);
    assert Balanced(sr) && BH(sr) == h && NoRedRed(sr);
    var r := ClimbParent(x, q);
    assert r == Attach(q[0].(sib := sr), x);
    assert Balanced(r) by { if q[0].dir == L {} else {} }
    assert q[0].color == Black ==> NoRedRed(r) by { if q[0].dir == L {} else {} }
    assert BH(r) == h + BlackOf(q[0].color) by { if q[0].dir == L {} else {} }
    var b := r.(color := Black);
    assert Balanced(b) && NoRedRed(b) && BH(b) == h + 1 by { if q[0].dir == L {} else {} }
  }

  /** A Black sibling with a Red child: the rotations leave a red-black
      subtree with the parent's black height, under the parent's colour. */
  lemma {:induction false} RotateFarInv<V>(x: Tree<V>, q: Path<V>)
    requires DeleteFixupInv(x, q) && ColorOf(q[0].sib) == Black && q[0].sib.Node?
    requires ColorOf(Child(q[0].sib, q[0].dir)) == Red || ColorOf(Child(q[0].sib, Opp(q[0].dir))) == Red
    ensures IsRB(RotateFar(x, q)) && BH(RotateFar(x, q)) == BH(x) + 1 + BlackOf(q[0].color)
    ensures RotateFar(x, q).color == (if |q| == 1 then Black else q[0].color)
  {
    DeleteFixupFacts(x, q);
    var s := q[0].sib;
    var near, far := Child(s, q[0].dir), Child(s, Opp(q[0].dir));
    assert BH(near) == BH(x) && BH(far) == BH(x) && Balanced(near) && Balanced(far);
    assert NoRedRed(near) && NoRedRed(far);
    if ColorOf(far) == Black {
      NearRedInv(x, q);
    } else {
      FarRedInv(x, q);
    }
  }

  /** Only the near child is Red: two rotations, the near child rises. */
  lemma {:induction false} NearRedInv<V>(x: Tree<V>, q: Path<V>)
    requires |q| > 0 && IsRB(x) && q[0].sib.Node? && q[0].sib.color == Black
    requires |q| == 1 ==> q[0].color == Black
    requires IsRB(Child(q[0].sib, q[0].dir)) && ColorOf(Child(q[0].sib, q[0].dir)) == Red
    requires IsRB(Child(q[0].sib, Opp(q[0].dir))) && ColorOf(Child(q[0].sib, Opp(q[0].dir))) == Black
    requires BH(Child(q[0].sib, q[0].dir)) == BH(x) && BH(Child(q[0].sib, Opp(q[0].dir))) == BH(x)
    ensures IsRB(RotateFar(x, q)) && BH(RotateFar(x, q)) == BH(x) + 1 + BlackOf(q[0].color)
    ensures RotateFar(x, q).color == (if |q| == 1 then Black else q[0].color)
  {
    var h := BH(x);
    var d := q[0].dir;
    var s := q[0].sib;
    var pc' := if |q| == 1 then Black else q[0].color;
    var near, far := Child(s, d), Child(s, Opp(d));
    var n1, n2 := Child(near, d), Child(near, Opp(d));
    assert BH(n1) == h && BH(n2) == h && IsRB(n1) && IsRB(n2);
    var a := Attach(Frame(d, Black, q[0].entry, n1), x);
    var b := Attach(Frame(d, Black, s.entry, far), n2);
    assert IsRB(a) && BH(a) == h + 1 by { if d == L {} else {} }
    assert IsRB(b) && BH(b) == h + 1 by { if d == L {} else {} }
    assert RotateFar(x, q) == Attach(Frame(Opp(d), pc', near.entry, a), b) by { if d == L {} else {} }
    assert IsRB(Attach(Frame(Opp(d), pc', near.entry, a), b)) by { if d == L {} else {} }
  }

  /** The far child is Red: one rotation, the sibling rises. */
  lemma {:induction false} FarRedInv<V>(x: Tree<V>, q: Path<V>)
    requires |q| > 0 && IsRB(x) && q[0].sib.Node? && q[0].sib.color == Black
    requires |q| == 1 ==> q[0].color == Black
    requires IsRB(Child(q[0].sib, q[0].dir))
    requires IsRB(Child(q[0].sib, Opp(q[0].dir))) && ColorOf(Child(q[0].sib, Opp(q[0].dir))) == Red
    requires BH(Child(q[0].sib, q[0].dir)) == BH(x) && BH(Child(q[0].sib, Opp(q[0].dir))) == BH(x)
    ensures IsRB(RotateFar(x, q)) && BH(RotateFar(x, q)) == BH(x) + 1 + BlackOf(q[0].color)
    ensures RotateFar(x, q).color == (if |q| == 1 then Black else q[0].color)
  {
    var h := BH(x);
    var d := q[0].dir;
    var s := q[0].sib;
    var pc' := if |q| == 1 then Black else q[0].color;
    var near, far := Child(s, d), Child(s, Opp(d));
    var a := Attach(Frame(d, Black, q[0].entry, near), x);
    var b := far.(color := Black);
    assert IsRB(a) && BH(a) == h + 1 by { if d == L {} else {} }
    assert IsRB(b) && BH(b) == h + 1;
    assert RotateFar(x, q) == Attach(Frame(Opp(d), pc', s.entry, a), b) by { if d == L {} else {} }
    assert IsRB(Attach(Frame(Opp(d), pc', s.entry, a), b)) by { if d == L {} else {} }
  }

  // ---------------------------------------------------------------------
  // delete_

  /** The node `y` that `delete_` unlinks: the node itself when it lacks a
      child, else the minimum of its right subtree. The path returned is the
      ancestors of `y` once `y` has taken over the node's place and colour
      (only the entry of that one frame differs from before). */
  function SpliceTarget<V>(z: Zipper<V>): (y: Zipper<V>)
    requires z.focus.Node?
    ensures y.focus.Node? && (y.focus.left.Nil? || y.focus.right.Nil?)
    ensures Before(y.path) + Elems(y.focus.left) + Elems(y.focus.right) + After(y.path) ==
            Before(z.path) + Elems(z.focus.left) + Elems(z.focus.right) + After(z.path)
  {
    var n := z.focus;
    if n.left.Nil? || n.right.Nil? then z
    else
      var m := MinZipper(n.right);
      var f := Frame(R, n.color, m.focus.entry, n.left);
      SuccessorSplice(z);
      Zipper(m.focus, m.path + [f] + z.path)
  }

  /** With two children, the successor `y` (the minimum of the right subtree)
      taking the node's place leaves the entries around `y` as they were
      around the node. */
  lemma {:induction false} SuccessorSplice<V>(z: Zipper<V>)
    requires z.focus.Node? && z.focus.left.Node? && z.focus.right.Node?
    ensures var n := z.focus;
            var m := MinZipper(n.right);
            var p := m.path + [Frame(R, n.color, m.focus.entry, n.left)] + z.path;
            Before(p) + Elems(m.focus.left) + Elems(m.focus.right) + After(p) ==
            Before(z.path) + Elems(n.left) + Elems(n.right) + After(z.path)
  {
    var n := z.focus;
    var m := MinZipper(n.right);
    var e := m.focus.entry;
    var f := Frame(R, n.color, e, n.left);
    var q := [f] + z.path;
    var p := m.path + [f] + z.path;
    assert p == m.path + q;
    BeforeAppend(m.path, q);
    BeforeAppend([f], z.path);
    AfterAppend(m.path, q);
    AfterAppend([f], z.path);
    assert Before([f]) == Elems(n.left) + [e] && After([f]) == [] by {
      assert [f][1..] == [];
    }
    assert Elems(m.focus) == [e] + Elems(m.focus.right);
    Regroup(Before(p), Elems(m.focus.left), Elems(m.focus.right), After(p),
            Before(z.path), Elems(n.left), e, Elems(n.right), After(m.path), After(z.path));
  }

  /** The regrouping behind `SuccessorSplice`, over plain sequences. */
  lemma {:induction false} Regroup<T>(before: seq<T>, l: seq<T>, r: seq<T>, after: seq<T>,
                                      a: seq<T>, nl: seq<T>, e: T, nr: seq<T>, am: seq<T>, az: seq<T>)
    requires before == a + nl + [e] && l == [] && after == am + az && nr == [e] + r + am
    ensures before + l + r + after == a + nl + nr + az
  {
  }

  /** The ancestors of the unlinked node `y` before the splice. */
  function SpliceOrigin<V>(z: Zipper<V>): (p: Path<V>)
    requires z.focus.Node?
    ensures Plug(SpliceTarget(z).focus, p) == Plug(z.focus, z.path)
    ensures SameShape(p, SpliceTarget(z).path)
  {
    var n := z.focus;
    if n.left.Nil? || n.right.Nil? then z.path
    else
      SuccessorOrigin(z);
      var m := MinZipper(n.right);
      m.path + [Frame(R, n.color, n.entry, n.left)] + z.path
  }

  /** With two children, the path from the root down to the successor `y`
      plugs `y` back into the original tree, and has the shape of the path
      `y` has once it sits in the node's place. */
  lemma {:induction false} SuccessorOrigin<V>(z: Zipper<V>)
    requires z.focus.Node? && z.focus.left.Node? && z.focus.right.Node?
    ensures var n := z.focus;
            var m := MinZipper(n.right);
            var p := m.path + [Frame(R, n.color, n.entry, n.left)] + z.path;
            Plug(m.focus, p) == Plug(n, z.path) &&
            SameShape(p, m.path + [Frame(R, n.color, m.focus.entry, n.left)] + z.path)
  {
    var n := z.focus;
    var m := MinZipper(n.right);
    var f, f' := Frame(R, n.color, n.entry, n.left), Frame(R, n.color, m.focus.entry, n.left);
    var p, p' := m.path + [f] + z.path, m.path + [f'] + z.path;
    PlugAppend(m.focus, m.path, [f] + z.path);
    assert Plug(n.right, [f] + z.path) == Plug(n, z.path);
    assert p == m.path + ([f] + z.path);
    forall i | 0 <= i < |p|
      ensures p[i].dir == p'[i].dir && p[i].color == p'[i].color && p[i].sib == p'[i].sib
    {
      if i < |m.path| {
        assert p[i] == m.path[i] == p'[i];
      } else if i > |m.path| {
        assert p[i] == z.path[i - |m.path| - 1] == p'[i];
      }
    }
  }

  /** `delete_` for the node at `z`, a position in the whole tree
      `Plug(z.focus, z.path)`: unlink `y`, move it into the node's place,
      and repair a lost Black either by blackening `y`'s child or by
      `FixupDelete`. Returns the new whole tree. */
  function Delete<V>(z: Zipper<V>): (r: Tree<V>)
    requires z.focus.Node? && ValidTree(Plug(z.focus, z.path))
    ensures ValidTree(r)
    ensures Elems(r) == Before(z.path) + Elems(z.focus.left) + Elems(z.focus.right) + After(z.path)
  {
    var y := SpliceTarget(z);
    var childY := SpliceChild(y);
    if y.focus.color == Black && !(|y.path| == 0 && childY.Nil?) then
      if childY.Node? then
        DeleteBlackenChild(z);
        Plug(childY.(color := Black), y.path)
      else
        DeleteDoublyBlack(z);
        FixupDelete(Nil, y.path)
    else
      DeleteUnlink(z);
      Plug(childY, y.path)
  }

  /** The one possible child of the unlinked node `y`. */
  function SpliceChild<V>(y: Zipper<V>): Tree<V>
    requires y.focus.Node?
  {
    if y.focus.left.Node? then y.focus.left else y.focus.right
  }

  /** Hanging `y`'s child in `y`'s place leaves exactly the node's entry out. */
  lemma {:induction false} DeleteContents<V>(z: Zipper<V>)
    requires z.focus.Node?
    ensures var y := SpliceTarget(z);
            Elems(Plug(SpliceChild(y), y.path)) ==
            Before(z.path) + Elems(z.focus.left) + Elems(z.focus.right) + After(z.path)
  {
    var y := SpliceTarget(z);
    var childY := SpliceChild(y);
    assert Elems(childY) == Elems(y.focus.left) + Elems(y.focus.right);
    ElemsPlug(childY, y.path);
    Regroup4(Before(y.path), Elems(y.focus.left), Elems(y.focus.right), After(y.path));
  }

  /** A Black `y` with a (Red) child: the child, blackened, takes `y`'s
      place and the tree is valid again. */
  lemma {:induction false} DeleteBlackenChild<V>(z: Zipper<V>)
    requires z.focus.Node? && ValidTree(Plug(z.focus, z.path))
    requires SpliceTarget(z).focus.color == Black && SpliceChild(SpliceTarget(z)).Node?
    ensures var y := SpliceTarget(z);
            var r := Plug(SpliceChild(y).(color := Black), y.path);
            ValidTree(r) &&
            Elems(r) == Before(z.path) + Elems(z.focus.left) + Elems(z.focus.right) + After(z.path)
  {
    var y := SpliceTarget(z);
    var childY := SpliceChild(y);
    SpliceFacts(z);
    DeleteSorted(z);
    DeleteContents(z);
    var c := childY.(color := Black);
    assert IsRB(c) && BH(c) == BH(y.focus);
    ElemsPlugSame(c, childY, y.path);
    BalancedPlug(c, y.path);
    NoRedRedPlug(c, y.path);
    ColorPlug(c, y.path);
  }

  /** A Black `y` without children below the root: the null slot left
      behind is doubly black, which is where `FixupDelete` starts. */
  lemma {:induction false} DeleteDoublyBlack<V>(z: Zipper<V>)
    requires z.focus.Node? && ValidTree(Plug(z.focus, z.path))
    requires SpliceTarget(z).focus.color == Black && SpliceChild(SpliceTarget(z)).Nil?
    requires |SpliceTarget(z).path| > 0
    ensures var y := SpliceTarget(z);
            DeleteFixupInv(Nil, y.path) &&
            Sorted(Elems(Plug(Nil, y.path))) &&
            Elems(Plug(Nil, y.path)) == Before(z.path) + Elems(z.focus.left) + Elems(z.focus.right) + After(z.path)
  {
    SpliceFacts(z);
    DeleteSorted(z);
    DeleteContents(z);
  }

  /** A Red `y`, or a childless root: `y`'s child simply takes its place. */
  lemma {:induction false} DeleteUnlink<V>(z: Zipper<V>)
    requires z.focus.Node? && ValidTree(Plug(z.focus, z.path))
    requires SpliceTarget(z).focus.color == Red ||
             (|SpliceTarget(z).path| == 0 && SpliceChild(SpliceTarget(z)).Nil?)
    ensures var y := SpliceTarget(z);
            var r := Plug(SpliceChild(y), y.path);
            ValidTree(r) &&
            Elems(r) == Before(z.path) + Elems(z.focus.left) + Elems(z.focus.right) + After(z.path)
  {
    var y := SpliceTarget(z);
    var childY := SpliceChild(y);
    SpliceFacts(z);
    DeleteSorted(z);
    DeleteContents(z);
    BalancedPlug(childY, y.path);
    NoRedRedPlug(childY, y.path);
    ColorPlug(childY, y.path);
  }

  /** The colour facts `Delete` relies on: the unlinked node `y` is a
      red-black subtree hanging under balanced frames; its one possible child
      is Red when `y` is Black, and Black when `y` is Red. */
  lemma {:induction false} SpliceFacts<V>(z: Zipper<V>)
    requires z.focus.Node? && ValidTree(Plug(z.focus, z.path))
    ensures var y := SpliceTarget(z);
            var childY := SpliceChild(y);
            IsRB(childY) &&
            PathBalanced(y.path, BH(y.focus)) && PathNoRedRed(y.path, Black) &&
            (|y.path| > 0 ==> y.path[|y.path| - 1].color == Black) &&
            (y.focus.color == Red ==> |y.path| > 0 && ColorOf(childY) == Black && BH(childY) == BH(y.focus)) &&
            (y.focus.color == Black ==> BH(y.focus) == 1 && BH(childY) == 0 &&
                                        (childY.Node? ==> childY.color == Red))
  {
    var y := SpliceTarget(z);
    var o := SpliceOrigin(z);
    var t := Plug(z.focus, z.path);
    BalancedPlug(y.focus, o);
    NoRedRedPlug(y.focus, o);
    ColorPlug(y.focus, o);
    SameShapeRules(o, y.path, BH(y.focus), y.focus.color);
    PathNoRedRedBlack(y.path, y.focus.color);
    assert |o| > 0 ==> o[|o| - 1].color == y.path[|y.path| - 1].color;
    var childY := SpliceChild(y);
    if childY.Node? && childY.color == Black {
      BHPositive(childY);
    }
  }

  /** Dropping the node's entry keeps the order. */
  lemma {:induction false} DeleteSorted<V>(z: Zipper<V>)
    requires z.focus.Node? && Sorted(Elems(Plug(z.focus, z.path)))
    ensures Sorted(Before(z.path) + Elems(z.focus.left) + Elems(z.focus.right) + After(z.path))
  {
    var s := Elems(Plug(z.focus, z.path));
    ElemsPlug(z.focus, z.path);
    SplitPlugged(s, Before(z.path), Elems(z.focus.left), z.focus.entry, Elems(z.focus.right), After(z.path));
    SortedRemove(s, |Before(z.path) + Elems(z.focus.left)|);
  }
}
