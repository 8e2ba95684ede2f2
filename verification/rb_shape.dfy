/** The shape of the red-black tree: nodes, colours, entries, the path from a
    node up to the root (which stands for the parent back-references), and the
    abstractions the invariants are stated in (in-order entry sequence, black
    height, the red-red rule). */
module RbShape {

  datatype Color = Red | Black

  /** A stored entry. The comparator only ever looks at `key`; `value` is the
      payload (the mapped value when the tree backs a map). */
  datatype Entry<V> = Entry(key: int, value: V)

  /** A subtree: `Nil` is a null child link. */
  datatype Tree<V> = Nil | Node(color: Color, left: Tree<V>, entry: Entry<V>, right: Tree<V>)

  datatype Dir = L | R

  /** One step up from a node: the node hangs on side `dir` of a parent with
      colour `color` and entry `entry`, whose other child is `sib`. */
  datatype Frame<V> = Frame(dir: Dir, color: Color, entry: Entry<V>, sib: Tree<V>)

  /** The ancestors of a position, nearest first: `p[0]` is the parent and the
      last frame is the root. An empty path means the position is the root. */
  type Path<V> = seq<Frame<V>>

  /** A position in a tree: the subtree rooted there and the way back up. */
  datatype Zipper<V> = Zipper(focus: Tree<V>, path: Path<V>)

  function Opp(d: Dir): Dir { if d == L then R else L }

  /** The child on side `d`. */
  function Child<V>(t: Tree<V>, d: Dir): Tree<V>
    requires t.Node?
  {
    if d == L then t.left else t.right
  }

  /** The parent node of a frame, rebuilt with `t` in the child slot. */
  function Attach<V>(f: Frame<V>, t: Tree<V>): (r: Tree<V>)
    ensures r.Node? && r.color == f.color && r.entry == f.entry
    ensures Child(r, f.dir) == t && Child(r, Opp(f.dir)) == f.sib
  {
    if f.dir == L then Node(f.color, t, f.entry, f.sib) else Node(f.color, f.sib, f.entry, t)
  }

  /** The whole tree, rebuilt from a position. */
  function Plug<V>(t: Tree<V>, p: Path<V>): Tree<V>
    decreases |p|
  {
    if |p| == 0 then t else Plug(Attach(p[0], t), p[1..])
  }

  /** The tree `t` with its root forced Black (the final step of `insert_`, and
      what `setRoot_` does to a node it installs). */
  function Blacken<V>(t: Tree<V>): (r: Tree<V>)
    ensures ColorOf(r) == Black && Elems(r) == Elems(t)
    ensures t.Node? ==> r.Node? && r.left == t.left && r.right == t.right && r.entry == t.entry
  {
    if t.Nil? then Nil else t.(color := Black)
  }

  // ---------------------------------------------------------------------
  // Contents

  /** The in-order sequence of entries. */
  function Elems<V>(t: Tree<V>): seq<Entry<V>> {
    if t.Nil? then [] else Elems(t.left) + [t.entry] + Elems(t.right)
  }

  /** The entries in front of a position, in order. */
  function Before<V>(p: Path<V>): seq<Entry<V>>
    decreases |p|
  {
    if |p| == 0 then []
    else Before(p[1..]) + (if p[0].dir == L then [] else Elems(p[0].sib) + [p[0].entry])
  }

  /** The entries behind a position, in order. */
  function After<V>(p: Path<V>): seq<Entry<V>>
    decreases |p|
  {
    if |p| == 0 then []
    else (if p[0].dir == L then [p[0].entry] + Elems(p[0].sib) else []) + After(p[1..])
  }

  function KeysOf<V>(s: seq<Entry<V>>): set<int> {
    if |s| == 0 then {} else {s[0].key} + KeysOf(s[1..])
  }

  function Keys<V>(t: Tree<V>): set<int> { KeysOf(Elems(t)) }

  /** The comparator `Cmp`, a strict weak order on keys: here `<` on integers. */
  predicate Less(a: int, b: int) { a < b }

  /** Equivalence exactly as the source tests it: neither key precedes the other. */
  predicate Equiv(a: int, b: int) { !Less(a, b) && !Less(b, a) }

  /** The comparator's strict order holds between every earlier and later entry. */
  predicate Sorted<V>(s: seq<Entry<V>>) {
    forall i, j :: 0 <= i < j < |s| ==> s[i].key < s[j].key
  }

  /** How many entries have a key below `k`: the index `k` has, or would get,
      in a sorted sequence. */
  function Rank<V>(s: seq<Entry<V>>, k: int): nat
    ensures Rank(s, k) <= |s|
  {
    if |s| == 0 then 0 else (if s[0].key < k then 1 else 0) + Rank(s[1..], k)
  }

  predicate AllBelow<V>(s: seq<Entry<V>>, k: int) { forall i :: 0 <= i < |s| ==> s[i].key < k }
  predicate AllAbove<V>(s: seq<Entry<V>>, k: int) { forall i :: 0 <= i < |s| ==> k < s[i].key }

  // ---------------------------------------------------------------------
  // Red-black rules

  function BlackOf(c: Color): nat { if c == Black then 1 else 0 }

  /** Null children count as Black. */
  function ColorOf<V>(t: Tree<V>): Color { if t.Nil? then Black else t.color }

  /** Black nodes on the leftmost path (the black height when `Balanced`). */
  function BH<V>(t: Tree<V>): nat {
    if t.Nil? then 0 else BH(t.left) + BlackOf(t.color)
  }

  /** Every path down to a null child crosses the same number of Black nodes. */
  predicate Balanced<V>(t: Tree<V>) {
    t.Nil? || (Balanced(t.left) && Balanced(t.right) && BH(t.left) == BH(t.right))
  }

  /** No Red node has a Red child. */
  predicate NoRedRed<V>(t: Tree<V>) {
    t.Nil? ||
    (NoRedRed(t.left) && NoRedRed(t.right) &&
     (t.color == Red ==> ColorOf(t.left) == Black && ColorOf(t.right) == Black))
  }

  predicate IsRB<V>(t: Tree<V>) { Balanced(t) && NoRedRed(t) }

  /** A whole red-black tree: search order, the colour rules and a Black root. */
  predicate ValidTree<V>(t: Tree<V>) {
    Sorted(Elems(t)) && IsRB(t) && ColorOf(t) == Black
  }

  /** The frames above a position of black height `h` keep every path
      balanced: each sibling is balanced with the black height of the slot
      next to it. */
  predicate PathBalanced<V>(p: Path<V>, h: nat)
    decreases |p|
  {
    |p| == 0 ||
    (Balanced(p[0].sib) && BH(p[0].sib) == h && PathBalanced(p[1..], h + BlackOf(p[0].color)))
  }

  /** The frames above a position whose root has colour `below` obey the
      red-red rule. */
  predicate PathNoRedRed<V>(p: Path<V>, below: Color)
    decreases |p|
  {
    |p| == 0 ||
    (NoRedRed(p[0].sib) &&
     (p[0].color == Red ==> below == Black && ColorOf(p[0].sib) == Black) &&
     PathNoRedRed(p[1..], p[0].color))
  }

  /** Two paths that differ at most in their entries. */
  ghost predicate SameShape<V>(p: Path<V>, q: Path<V>) {
    |p| == |q| &&
    forall i :: 0 <= i < |p| ==> p[i].dir == q[i].dir && p[i].color == q[i].color && p[i].sib == q[i].sib
  }

  // ---------------------------------------------------------------------
  // Lemmas about plugging

  lemma {:induction false} ElemsPlug<V>(t: Tree<V>, p: Path<V>)
    ensures Elems(Plug(t, p)) == Before(p) + Elems(t) + After(p)
    decreases |p|
  {
    if |p| > 0 {
      ElemsPlug(Attach(p[0], t), p[1..]);
    }
  }

  lemma {:induction false} PlugAppend<V>(t: Tree<V>, p: Path<V>, q: Path<V>)
    ensures Plug(t, p + q) == Plug(Plug(t, p), q)
    decreases |p|
  {
    if |p| > 0 {
      assert (p + q)[0] == p[0];
      assert (p + q)[1..] == p[1..] + q;
      PlugAppend(Attach(p[0], t), p[1..], q);
    } else {
      assert p + q == q;
    }
  }

  lemma {:induction false} BeforeAppend<V>(p: Path<V>, q: Path<V>)
    ensures Before(p + q) == Before(q) + Before(p)
    decreases |p|
  {
    if |p| > 0 {
      assert (p + q)[0] == p[0];
      assert (p + q)[1..] == p[1..] + q;
      BeforeAppend(p[1..], q);
    } else {
      assert p + q == q;
    }
  }

  lemma {:induction false} AfterAppend<V>(p: Path<V>, q: Path<V>)
    ensures After(p + q) == After(p) + After(q)
    decreases |p|
  {
    if |p| > 0 {
      assert (p + q)[0] == p[0];
      assert (p + q)[1..] == p[1..] + q;
      AfterAppend(p[1..], q);
    } else {
      assert p + q == q;
    }
  }

  /** The root colour of a plugged tree is that of the outermost frame. */
  lemma {:induction false} ColorPlug<V>(t: Tree<V>, p: Path<V>)
    ensures ColorOf(Plug(t, p)) == if |p| == 0 then ColorOf(t) else p[|p| - 1].color
    decreases |p|
  {
    if |p| > 0 {
      ColorPlug(Attach(p[0], t), p[1..]);
    }
  }

  /** Balance of a whole tree splits into balance below and above a position. */
  lemma {:induction false} BalancedPlug<V>(t: Tree<V>, p: Path<V>)
    ensures Balanced(Plug(t, p)) <==> Balanced(t) && PathBalanced(p, BH(t))
    decreases |p|
  {
    if |p| > 0 {
      var a := Attach(p[0], t);
      BalancedPlug(a, p[1..]);
      assert Balanced(a) <==> Balanced(t) && Balanced(p[0].sib) && BH(t) == BH(p[0].sib);
      assert Balanced(a) ==> BH(a) == BH(t) + BlackOf(p[0].color);
    }
  }

  /** The red-red rule of a whole tree splits at a position. */
  lemma {:induction false} NoRedRedPlug<V>(t: Tree<V>, p: Path<V>)
    ensures NoRedRed(Plug(t, p)) <==> NoRedRed(t) && PathNoRedRed(p, ColorOf(t))
    decreases |p|
  {
    if |p| > 0 {
      NoRedRedPlug(Attach(p[0], t), p[1..]);
    }
  }

  /** Whatever hangs below, a path that is fine above a Red root is fine above
      a Black one. */
  lemma {:induction false} PathNoRedRedBlack<V>(p: Path<V>, c: Color)
    requires PathNoRedRed(p, c)
    ensures PathNoRedRed(p, Black)
  {
  }

  /** The balance and colour rules above a position ignore the entries. */
  lemma {:induction false} SameShapeRules<V>(p: Path<V>, q: Path<V>, h: nat, c: Color)
    requires SameShape(p, q)
    ensures PathBalanced(p, h) <==> PathBalanced(q, h)
    ensures PathNoRedRed(p, c) <==> PathNoRedRed(q, c)
    decreases |p|
  {
    if |p| > 0 {
      assert p[0].sib == q[0].sib && p[0].color == q[0].color;
      assert SameShape(p[1..], q[1..]) by {
        forall i | 0 <= i < |p[1..]|
          ensures p[1..][i].dir == q[1..][i].dir && p[1..][i].color == q[1..][i].color && p[1..][i].sib == q[1..][i].sib
        {
          assert p[1..][i] == p[i + 1] && q[1..][i] == q[i + 1];
        }
      }
      SameShapeRules(p[1..], q[1..], h + BlackOf(p[0].color), p[0].color);
    }
  }

  /** A position of positive black height is a node. */
  lemma {:induction false} BHPositive<V>(t: Tree<V>)
    requires BH(t) > 0
    ensures t.Node?
  {
  }

  // ---------------------------------------------------------------------
  // Lemmas about contents

  lemma {:induction false} KeysOfAppend<V>(a: seq<Entry<V>>, b: seq<Entry<V>>)
    ensures KeysOf(a + b) == KeysOf(a) + KeysOf(b)
    decreases |a|
  {
    if |a| > 0 {
      assert (a + b)[0] == a[0];
      assert (a + b)[1..] == a[1..] + b;
      KeysOfAppend(a[1..], b);
    } else {
      assert a + b == b;
    }
  }

  lemma {:induction false} KeysOfIndex<V>(s: seq<Entry<V>>, k: int)
    ensures k in KeysOf(s) <==> exists i :: 0 <= i < |s| && s[i].key == k
    decreases |s|
  {
    if |s| > 0 {
      KeysOfIndex(s[1..], k);
      if k in KeysOf(s[1..]) {
        var i :| 0 <= i < |s[1..]| && s[1..][i].key == k;
        assert s[i + 1].key == k;
      }
      if exists i :: 0 <= i < |s| && s[i].key == k {
        var i :| 0 <= i < |s| && s[i].key == k;
        if i > 0 {
          assert s[1..][i - 1].key == k;
        }
      }
    }
  }

  lemma {:induction false} RankAppend<V>(a: seq<Entry<V>>, b: seq<Entry<V>>, k: int)
    ensures Rank(a + b, k) == Rank(a, k) + Rank(b, k)
    decreases |a|
  {
    if |a| > 0 {
      assert (a + b)[0] == a[0];
      assert (a + b)[1..] == a[1..] + b;
      RankAppend(a[1..], b, k);
    } else {
      assert a + b == b;
    }
  }

  lemma {:induction false} RankAllBelow<V>(s: seq<Entry<V>>, k: int)
    requires AllBelow(s, k)
    ensures Rank(s, k) == |s|
    decreases |s|
  {
    if |s| > 0 {
      RankAllBelow(s[1..], k);
    }
  }

  lemma {:induction false} RankNoneBelow<V>(s: seq<Entry<V>>, k: int)
    requires forall i :: 0 <= i < |s| ==> k <= s[i].key
    ensures Rank(s, k) == 0
    decreases |s|
  {
    if |s| > 0 {
      RankNoneBelow(s[1..], k);
    }
  }

  /** The pieces of a sequence split around one element. */
  lemma {:induction false} SplitAround<T>(s: seq<T>, a: seq<T>, x: T, b: seq<T>)
    requires s == a + [x] + b
    ensures |a| < |s| && s[|a|] == x && s[..|a|] == a && s[|a| + 1..] == b
  {
    assert s[..|a|] == a;
    assert s[|a| + 1..] == b;
  }

  /** Concatenation regrouped. */
  lemma {:induction false} Regroup4<T>(a: seq<T>, b: seq<T>, c: seq<T>, d: seq<T>)
    ensures a + b + (c + d) == a + b + c + d
    ensures a + (b + c) + d == a + b + c + d
  {
    assert a + b + (c + d) == (a + b + c) + d;
  }

  /** The in-order sequence of a plugged node, `p + (l + [x] + r) + q`, split
      around the node's own element. */
  lemma {:induction false} SplitPlugged<T>(s: seq<T>, p: seq<T>, l: seq<T>, x: T, r: seq<T>, q: seq<T>)
    requires s == p + (l + [x] + r) + q
    ensures |p + l| < |s| && s[|p + l|] == x && s[..|p + l|] == p + l && s[|p + l| + 1..] == r + q
    ensures s[..|p + l|] + s[|p + l| + 1..] == p + l + r + q
  {
    assert s == (p + l) + [x] + (r + q);
    SplitAround(s, p + l, x, r + q);
  }

  /** In a sorted sequence, the rank of the key at index `i` is `i`. */
  lemma {:induction false} RankAt<V>(s: seq<Entry<V>>, i: nat)
    requires Sorted(s) && i < |s|
    ensures Rank(s, s[i].key) == i
  {
    assert s == s[..i] + s[i..];
    RankAppend(s[..i], s[i..], s[i].key);
    RankAllBelow(s[..i], s[i].key);
    RankNoneBelow(s[i..], s[i].key);
  }

  lemma {:induction false} SortedSplit<V>(a: seq<Entry<V>>, b: seq<Entry<V>>)
    requires Sorted(a + b)
    ensures Sorted(a) && Sorted(b)
  {
    forall i, j | 0 <= i < j < |a| ensures a[i].key < a[j].key {
      assert (a + b)[i] == a[i] && (a + b)[j] == a[j];
    }
    forall i, j | 0 <= i < j < |b| ensures b[i].key < b[j].key {
      assert (a + b)[|a| + i] == b[i] && (a + b)[|a| + j] == b[j];
    }
  }

  /** Joining two sorted sequences around an entry that separates them. */
  lemma {:induction false} SortedJoin<V>(a: seq<Entry<V>>, e: Entry<V>, b: seq<Entry<V>>)
    requires Sorted(a) && Sorted(b) && AllBelow(a, e.key) && AllAbove(b, e.key)
    ensures Sorted(a + [e] + b)
  {
  }

  /** Dropping one entry keeps the order. */
  lemma {:induction false} SortedRemove<V>(s: seq<Entry<V>>, i: nat)
    requires Sorted(s) && i < |s|
    ensures Sorted(s[..i] + s[i + 1..])
  {
    var t := s[..i] + s[i + 1..];
    forall a, b | 0 <= a < b < |t| ensures t[a].key < t[b].key {
      var a' := if a < i then a else a + 1;
      var b' := if b < i then b else b + 1;
      assert t[a] == s[a'] && t[b] == s[b'];
    }
  }

  /** The in-order sequence of a sorted node splits into sorted halves around
      the node's entry. */
  lemma {:induction false} SortedNode<V>(t: Tree<V>)
    requires t.Node? && Sorted(Elems(t))
    ensures Sorted(Elems(t.left)) && Sorted(Elems(t.right))
    ensures AllBelow(Elems(t.left), t.entry.key) && AllAbove(Elems(t.right), t.entry.key)
  {
    var a, b := Elems(t.left), Elems(t.right);
    assert Elems(t) == a + ([t.entry] + b);
    SortedSplit(a, [t.entry] + b);
    SortedSplit([t.entry], b);
    forall i | 0 <= i < |a| ensures a[i].key < t.entry.key {
      assert Elems(t)[i] == a[i] && Elems(t)[|a|] == t.entry;
    }
    forall i | 0 <= i < |b| ensures t.entry.key < b[i].key {
      assert Elems(t)[|a| + 1 + i] == b[i] && Elems(t)[|a|] == t.entry;
    }
  }

  /** A key of a sequence all of whose keys lie below (above) a bound lies
      below (above) it too. */
  lemma {:induction false} KeysOfBounds<V>(s: seq<Entry<V>>, k: int, x: int)
    requires x in KeysOf(s)
    ensures AllBelow(s, k) ==> x < k
    ensures AllAbove(s, k) ==> k < x
  {
    KeysOfIndex(s, x);
  }

  /** Putting an entry into a sequence adds its key to the key set. */
  lemma {:induction false} KeysInsertAt<V>(s: seq<Entry<V>>, i: nat, e: Entry<V>)
    requires i <= |s|
    ensures KeysOf(s[..i] + [e] + s[i..]) == KeysOf(s) + {e.key}
  {
    assert s == s[..i] + s[i..];
    KeysOfAppend(s[..i] + [e], s[i..]);
    KeysOfAppend(s[..i], [e]);
    KeysOfAppend(s[..i], s[i..]);
    assert KeysOf([e]) == {e.key} by { assert [e][1..] == []; }
  }

  /** Dropping the entry at index `i` of a sorted sequence removes exactly
      its key from the key set: no other entry shares it. */
  lemma {:induction false} KeysRemoveAt<V>(s: seq<Entry<V>>, i: nat)
    requires Sorted(s) && i < |s|
    ensures KeysOf(s[..i] + s[i + 1..]) == KeysOf(s) - {s[i].key}
  {
    var a, b := s[..i], s[i + 1..];
    assert s == a + [s[i]] + b;
    KeysOfAppend(a + [s[i]], b);
    KeysOfAppend(a, [s[i]]);
    KeysOfAppend(a, b);
    assert KeysOf([s[i]]) == {s[i].key} by { assert [s[i]][1..] == []; }
    assert AllBelow(a, s[i].key) && AllAbove(b, s[i].key);
    assert s[i].key !in KeysOf(a) by { KeysOfIndex(a, s[i].key); }
    assert s[i].key !in KeysOf(b) by { KeysOfIndex(b, s[i].key); }
  }

  /** The keys of a node are those of its children and its own; in a sorted
      tree the left keys lie below it and the right keys above it. */
  lemma {:induction false} NodeKeys<V>(t: Tree<V>)
    requires t.Node?
    ensures Keys(t) == Keys(t.left) + {t.entry.key} + Keys(t.right)
    ensures Sorted(Elems(t)) ==>
              Sorted(Elems(t.left)) && Sorted(Elems(t.right)) &&
              (forall x :: x in Keys(t.left) ==> x < t.entry.key) &&
              (forall x :: x in Keys(t.right) ==> t.entry.key < x)
  {
    KeysOfAppend(Elems(t.left) + [t.entry], Elems(t.right));
    KeysOfAppend(Elems(t.left), [t.entry]);
    if Sorted(Elems(t)) {
      SortedNode(t);
      forall x | x in Keys(t.left) ensures x < t.entry.key {
        KeysOfBounds(Elems(t.left), t.entry.key, x);
      }
      forall x | x in Keys(t.right) ensures t.entry.key < x {
        KeysOfBounds(Elems(t.right), t.entry.key, x);
      }
    }
  }

  /** The keys of a plugged tree: those in front, those of the subtree, and
      those behind. */
  lemma {:induction false} KeysPlug<V>(t: Tree<V>, p: Path<V>)
    ensures Keys(Plug(t, p)) == KeysOf(Before(p)) + Keys(t) + KeysOf(After(p))
  {
    ElemsPlug(t, p);
    KeysOfAppend(Before(p) + Elems(t), After(p));
    KeysOfAppend(Before(p), Elems(t));
  }

  lemma {:induction false} BoundsAppend<V>(a: seq<Entry<V>>, b: seq<Entry<V>>, k: int)
    ensures AllBelow(a, k) && AllBelow(b, k) ==> AllBelow(a + b, k)
    ensures AllAbove(a, k) && AllAbove(b, k) ==> AllAbove(a + b, k)
  {
  }

  lemma {:induction false} BoundsWeaken<V>(s: seq<Entry<V>>, k: int, k': int)
    ensures AllBelow(s, k) && k <= k' ==> AllBelow(s, k')
    ensures AllAbove(s, k) && k' <= k ==> AllAbove(s, k')
  {
  }

  lemma {:induction false} ElemsAttach<V>(f: Frame<V>, t: Tree<V>)
    ensures Elems(Attach(f, t)) ==
            if f.dir == L then Elems(t) + [f.entry] + Elems(f.sib) else Elems(f.sib) + [f.entry] + Elems(t)
  {
  }

  /** Plugging two frames at once. */
  lemma {:induction false} PlugTwo<V>(t: Tree<V>, p: Path<V>)
    requires |p| >= 2
    ensures Plug(t, p) == Plug(Attach(p[1], Attach(p[0], t)), p[2..])
  {
    assert p[1..][0] == p[1] && p[1..][1..] == p[2..];
  }

  /** Subtrees with the same contents give trees with the same contents. */
  lemma {:induction false} ElemsPlugSame<V>(a: Tree<V>, b: Tree<V>, p: Path<V>)
    requires Elems(a) == Elems(b)
    ensures Elems(Plug(a, p)) == Elems(Plug(b, p))
  {
    ElemsPlug(a, p);
    ElemsPlug(b, p);
  }
}
