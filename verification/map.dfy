/** The ordered map `map<Key, Value>`: a red-black tree of (key, value)
    pairs ordered by key alone. Its meaning is a finite map from keys to
    values, `Contents`; every operation is stated against it. */
module Maps {
  import opened Results
  import opened RbShape
  import opened RbNode
  import opened RbTrees

  // ---------------------------------------------------------------------
  // MapValueCompare

  /** What `MapValueCompare` can be asked to compare: a bare key (what `find`
      and `at` pass) or a stored pair. */
  datatype Operand<V> = KeyOp(key: int) | PairOp(pair: Entry<V>)

  /** `MapValueCompare::operator()`, one case per overload: each passes the
      key of its operands to the user comparator. */
  predicate ValueLess<V>(a: Operand<V>, b: Operand<V>) {
    match (a, b)
    case (KeyOp(x), KeyOp(y)) => Less(x, y)
    case (KeyOp(x), PairOp(q)) => Less(x, q.key)
    case (PairOp(p), KeyOp(y)) => Less(p.key, y)
    case (PairOp(p), PairOp(q)) => Less(p.key, q.key)
  }

  function KeyOf<V>(o: Operand<V>): int {
    match o
    case KeyOp(k) => k
    case PairOp(p) => p.key
  }

  /** The pair order looks at keys only: two operands compare as their keys
      do, whatever the values, and it is a strict weak order. */
  lemma {:induction false} ValueLessByKey<V>(a: Operand<V>, b: Operand<V>, c: Operand<V>)
    ensures ValueLess(a, b) <==> Less(KeyOf(a), KeyOf(b))
    ensures !ValueLess(a, a)
    ensures ValueLess(a, b) && ValueLess(b, c) ==> ValueLess(a, c)
    ensures !ValueLess(a, b) && !ValueLess(b, a) && !ValueLess(b, c) && !ValueLess(c, b) ==>
              !ValueLess(a, c) && !ValueLess(c, a)
  {
    match (a, b)
    case (KeyOp(_), KeyOp(_)) =>
    case (KeyOp(_), PairOp(_)) =>
    case (PairOp(_), KeyOp(_)) =>
    case (PairOp(_), PairOp(_)) =>
  }

  /** The tree's order on its entries is the comparator's order on pairs:
      an in-order sequence is sorted exactly when every earlier pair
      precedes every later one under `MapValueCompare`. */
  lemma {:induction false} SortedByValueLess<V>(s: seq<Entry<V>>)
    ensures Sorted(s) <==>
              forall i, j :: 0 <= i < j < |s| ==> ValueLess(PairOp(s[i]), PairOp(s[j]))
  {
  }

  /** The search for a bare key (what `find` and `at` pass): in a sorted
      sequence the entries that precede `KeyOp(k)` under `MapValueCompare`
      are exactly the first `Rank(s, k)`, the index the tree's descent
      reaches for `k`. */
  lemma {:induction false} RankByValueLess<V>(s: seq<Entry<V>>, k: int, i: nat)
    requires Sorted(s) && i < |s|
    ensures i < Rank(s, k) <==> ValueLess(PairOp(s[i]), KeyOp(k))
  {
    assert s == s[..i] + s[i..];
    RankAppend(s[..i], s[i..], k);
    if s[i].key < k {
      assert AllBelow(s[..i], k) by {
        forall j | 0 <= j < i ensures s[..i][j].key < k {
          assert s[..i][j] == s[j];
        }
      }
      RankAllBelow(s[..i], k);
      assert s[i..][0] == s[i];
    } else {
      forall j | 0 <= j < |s[i..]| ensures k <= s[i..][j].key {
        assert s[i..][j] == s[i + j];
      }
      RankNoneBelow(s[i..], k);
    }
  }

  // ---------------------------------------------------------------------
  // The abstract contents

  /** The map held by an in-order sequence of pairs. */
  ghost function ToMap<V>(s: seq<Entry<V>>): map<int, V>
    decreases |s|
  {
    if |s| == 0 then map[] else ToMap(s[1..])[s[0].key := s[0].value]
  }

  /** A map object: the tree it wraps. */
  datatype Map<V> = Map(tree: RbTree<V>)

  predicate ValidMap<V>(m: Map<V>) { Valid(m.tree) }

  /** The key-to-value map a map object stands for. */
  ghost function Contents<V>(m: Map<V>): map<int, V> {
    ToMap(Elems(m.tree.root))
  }

  /** A sorted sequence of pairs maps exactly its keys, each to the value
      stored with it, and has one pair per key. */
  lemma {:induction false} ToMapIndex<V>(s: seq<Entry<V>>)
    requires Sorted(s)
    ensures ToMap(s).Keys == KeysOf(s) && |ToMap(s)| == |s|
    ensures forall i :: 0 <= i < |s| ==> s[i].key in ToMap(s) && ToMap(s)[s[i].key] == s[i].value
    decreases |s|
  {
    if |s| > 0 {
      var t := s[1..];
      SortedSplit([s[0]], t);
      assert [s[0]] + t == s;
      ToMapIndex(t);
      assert s[0].key !in KeysOf(t) by {
        KeysOfIndex(t, s[0].key);
        assert forall j :: 0 <= j < |t| ==> t[j] == s[j + 1];
      }
      forall i | 0 <= i < |s| ensures s[i].key in ToMap(s) && ToMap(s)[s[i].key] == s[i].value {
        if i > 0 {
          assert s[i] == t[i - 1] && s[0].key < s[i].key;
        }
      }
    }
  }

  /** Putting a pair with a fresh key into a sorted sequence adds that key
      with that value to the map. */
  lemma {:induction false} ToMapInsert<V>(s: seq<Entry<V>>, i: nat, e: Entry<V>)
    requires i <= |s| && Sorted(s) && Sorted(s[..i] + [e] + s[i..]) && e.key !in KeysOf(s)
    ensures ToMap(s[..i] + [e] + s[i..]) == ToMap(s)[e.key := e.value]
  {
    var s' := s[..i] + [e] + s[i..];
    ToMapIndex(s);
    ToMapIndex(s');
    KeysInsertAt(s, i, e);
    forall k | k in ToMap(s')
      ensures ToMap(s')[k] == ToMap(s)[e.key := e.value][k]
    {
      ToMapInsertKey(s, i, e, k);
    }
  }

  /** One key of the map after the insertion of `e` at index `i`. */
  lemma {:induction false} ToMapInsertKey<V>(s: seq<Entry<V>>, i: nat, e: Entry<V>, k: int)
    requires i <= |s| && Sorted(s) && Sorted(s[..i] + [e] + s[i..]) && e.key !in KeysOf(s)
    requires k in KeysOf(s[..i] + [e] + s[i..])
    ensures var s' := s[..i] + [e] + s[i..];
            k in ToMap(s') &&
            (k == e.key ==> ToMap(s')[k] == e.value) &&
            (k != e.key ==> k in ToMap(s) && ToMap(s')[k] == ToMap(s)[k])
  {
    var s' := s[..i] + [e] + s[i..];
    ToMapIndex(s);
    ToMapIndex(s');
    KeysOfIndex(s', k);
    var j :| 0 <= j < |s'| && s'[j].key == k;
    if j < i {
      assert s'[j] == s[j];
      KeysOfIndex(s, k);
    } else if j == i {
      assert s'[j] == e;
    } else {
      assert s'[j] == s[j - 1];
      KeysOfIndex(s, k);
    }
  }

  /** Dropping the pair at index `i` of a sorted sequence removes its key
      from the map. */
  lemma {:induction false} ToMapRemove<V>(s: seq<Entry<V>>, i: nat)
    requires i < |s| && Sorted(s)
    ensures Sorted(s[..i] + s[i + 1..])
    ensures ToMap(s[..i] + s[i + 1..]) == ToMap(s) - {s[i].key}
  {
    var s' := s[..i] + s[i + 1..];
    SortedRemove(s, i);
    ToMapIndex(s);
    ToMapIndex(s');
    KeysRemoveAt(s, i);
    forall k | k in ToMap(s')
      ensures ToMap(s')[k] == ToMap(s)[k]
    {
      ToMapRemoveKey(s, i, k);
    }
  }

  /** One key of the map after dropping index `i`. */
  lemma {:induction false} ToMapRemoveKey<V>(s: seq<Entry<V>>, i: nat, k: int)
    requires i < |s| && Sorted(s) && Sorted(s[..i] + s[i + 1..]) && k in KeysOf(s[..i] + s[i + 1..])
    ensures var s' := s[..i] + s[i + 1..];
            k in ToMap(s') && k in ToMap(s) && ToMap(s')[k] == ToMap(s)[k]
  {
    var s' := s[..i] + s[i + 1..];
    ToMapIndex(s);
    ToMapIndex(s');
    KeysOfIndex(s', k);
    var j :| 0 <= j < |s'| && s'[j].key == k;
    if j < i {
      assert s'[j] == s[j];
    } else {
      assert s'[j] == s[j + 1];
    }
  }

  // ---------------------------------------------------------------------
  // Operations

  /** `map()`: an empty map. */
  function EmptyMap<V>(id: nat): (m: Map<V>)
    ensures ValidMap(m) && Contents(m) == map[]
  {
    Map(Empty(id))
  }

  /** `at`: `index_out_of_bound` when no equivalent key is stored, else the
      value stored with it. */
  function AtKey<V>(m: Map<V>, k: int): (r: Result<V>)
    requires ValidMap(m)
    ensures r.Err? <==> k !in Contents(m)
    ensures r.Err? ==> r.error == IndexOutOfBound
    ensures r.Ok? ==> k in Contents(m) && r.value == Contents(m)[k]
  {
    var it := FindIter(m.tree, k);
    ToMapIndex(Elems(m.tree.root));
    if it.pos.End? then Err(IndexOutOfBound)
    else Ok(Deref(m.tree, it).value)
  }

  /** Const `operator[]`: forwards to `at`. */
  function IndexConst<V>(m: Map<V>, k: int): (r: Result<V>)
    requires ValidMap(m)
    ensures r.Err? <==> k !in Contents(m)
    ensures r.Err? ==> r.error == IndexOutOfBound
    ensures r.Ok? ==> r.value == Contents(m)[k]
  {
    AtKey(m, k)
  }

  /** `count`: 0 or 1, and 1 exactly when `find` does not give `end()`. */
  function Count<V>(m: Map<V>, k: int): (c: nat)
    requires ValidMap(m)
    ensures c <= 1
    ensures c == 1 <==> k in Contents(m)
    ensures c == 1 <==> FindKey(m, k).pos != End
  {
    ToMapIndex(Elems(m.tree.root));
    if FindIter(m.tree, k).pos == End then 0 else 1
  }

  /** `find`: the tree's `find` on the key. */
  function FindKey<V>(m: Map<V>, k: int): (it: Iter)
    requires ValidMap(m)
    ensures ValidIter(m.tree, it)
    ensures it.pos == if k in Contents(m) then At(k) else End
  {
    ToMapIndex(Elems(m.tree.root));
    FindIter(m.tree, k)
  }

  /** `insert`: the tree's insert, returning its (iterator, inserted) pair.
      An existing key keeps its value. */
  function Insert<V>(m: Map<V>, e: Entry<V>): (r: (Map<V>, Iter, bool))
    requires ValidMap(m)
    ensures ValidMap(r.0) && ValidIter(r.0.tree, r.1) && r.1.pos == At(e.key)
    ensures r.2 <==> e.key !in Contents(m)
    ensures Contents(r.0) == if r.2 then Contents(m)[e.key := e.value] else Contents(m)
  {
    var t := RbTrees.Insert(m.tree, e);
    var s := Elems(m.tree.root);
    ToMapIndex(s);
    if t.2 then
      ToMapInsert(s, Rank(s, e.key), e);
      (Map(t.0), t.1, t.2)
    else (Map(t.0), t.1, t.2)
  }

  /** `erase`: the tree's erase; an end or foreign iterator throws. */
  function Erase<V>(m: Map<V>, it: Iter): (r: Result<Map<V>>)
    requires ValidMap(m) && (it.home == m.tree.id ==> ValidIter(m.tree, it))
    ensures r.Err? <==> it.pos.End? || it.home != m.tree.id
    ensures r.Err? ==> r.error == InvalidIterator
    ensures r.Ok? ==> ValidMap(r.value) && it.pos.key in Contents(m) &&
                      Contents(r.value) == Contents(m) - {it.pos.key}
  {
    match RbTrees.Erase(m.tree, it)
    case Err(e) => Err(e)
    case Ok(t) =>
      EraseKey(m, it);
      Ok(Map(t))
  }

  /** The tree's erase at a live node drops exactly that node's key. */
  lemma {:induction false} EraseKey<V>(m: Map<V>, it: Iter)
    requires ValidMap(m) && ValidIter(m.tree, it) && it.pos.At?
    ensures RbTrees.Erase(m.tree, it).Ok?
    ensures var t := RbTrees.Erase(m.tree, it).value;
            it.pos.key in Contents(m) && ToMap(Elems(t.root)) == Contents(m) - {it.pos.key}
  {
    var s := Elems(m.tree.root);
    var i := Rank(s, it.pos.key);
    var t := RbTrees.Erase(m.tree, it).value;
    assert i < |s| && s[i].key == it.pos.key && Elems(t.root) == s[..i] + s[i + 1..];
    ToMapIndex(s);
    ToMapRemove(s, i);
  }

  /** Mutable `operator[]`: insert `(key, ValueType())` and hand back the
      value in the node that holds the key. `dflt` is the value-initialised
      `ValueType()`. On a hit nothing changes and the stored value comes
      back; on a miss the key is added with `dflt`. */
  function Index<V>(m: Map<V>, k: int, dflt: V): (r: (Map<V>, V))
    requires ValidMap(m)
    ensures ValidMap(r.0) && k in Contents(r.0) && r.1 == Contents(r.0)[k]
    ensures k in Contents(m) ==> r.0 == m && r.1 == Contents(m)[k]
    ensures k !in Contents(m) ==> Contents(r.0) == Contents(m)[k := dflt] && r.1 == dflt
  {
    var ins := Insert(m, Entry(k, dflt));
    InsertDeref(m.tree, Entry(k, dflt));
    var e := Deref(ins.0.tree, ins.1);
    ToMapIndex(Elems(ins.0.tree.root));
    (ins.0, e.value)
  }

  /** `m[k] = v`: `operator[]`, then a write through the reference it
      returns. Afterwards the key maps to `v` and nothing else changes. */
  function Put<V>(m: Map<V>, k: int, v: V, dflt: V): (r: Map<V>)
    requires ValidMap(m)
    ensures ValidMap(r) && Contents(r) == Contents(m)[k := v]
  {
    var m' := Index(m, k, dflt).0;
    var it := FindKey(m', k);
    var t := Write(m'.tree, it, v);
    PutContents(m'.tree, it, v, t);
    OverwriteUpdate(Contents(m), Contents(m'), k, dflt, v);
    Map(t)
  }

  /** A key's second update hides its first. */
  lemma {:induction false} OverwriteUpdate<K, W>(a: map<K, W>, b: map<K, W>, k: K, d: W, v: W)
    requires b == a || b == a[k := d]
    ensures b[k := v] == a[k := v]
  {
  }

  /** `begin()` and `end()` forward to the tree. */
  function Begin<V>(m: Map<V>): (it: Iter)
    requires ValidMap(m)
    ensures ValidIter(m.tree, it) && it.pos == PosAt(Elems(m.tree.root), 0)
  {
    RbTrees.Begin(m.tree)
  }

  function EndIterator<V>(m: Map<V>): (it: Iter)
    ensures ValidIter(m.tree, it) && it.pos == End
  {
    EndIter(m.tree)
  }

  /** `empty()` and `size()`: the tree's count, which is the number of keys. */
  function IsEmpty<V>(m: Map<V>): (b: bool)
    requires ValidMap(m)
    ensures b <==> Contents(m) == map[]
  {
    ToMapIndex(Elems(m.tree.root));
    RbTrees.IsEmpty(m.tree)
  }

  function Size<V>(m: Map<V>): (n: nat)
    requires ValidMap(m)
    ensures n == |Contents(m)|
  {
    ToMapIndex(Elems(m.tree.root));
    m.tree.size
  }

  /** `clear()`: no keys remain. */
  function Clear<V>(m: Map<V>): (r: Map<V>)
    ensures ValidMap(r) && Contents(r) == map[] && r.tree.id == m.tree.id
  {
    Map(RbTrees.Clear(m.tree))
  }

  // ---------------------------------------------------------------------
  // Properties

  /** The write through `operator[]`'s reference: the key's value becomes
      `v`, every other key keeps its value. */
  lemma {:induction false} PutContents<V>(t: RbTree<V>, it: Iter, v: V, r: RbTree<V>)
    requires Valid(t) && ValidIter(t, it) && it.pos.At? && r == Write(t, it, v)
    ensures ToMap(Elems(r.root)) == ToMap(Elems(t.root))[it.pos.key := v]
  {
    ToMapWrite(Elems(t.root), Elems(r.root), it.pos.key, v);
  }

  /** Overwriting the value stored with the key `k` in a sorted sequence
      maps `k` to the new value and leaves the other keys alone. */
  lemma {:induction false} ToMapWrite<V>(s: seq<Entry<V>>, s': seq<Entry<V>>, k: int, v: V)
    requires Sorted(s) && Sorted(s') && k in KeysOf(s) && |s'| == |s|
    requires forall i :: 0 <= i < |s| ==> s'[i] == if s[i].key == k then Entry(k, v) else s[i]
    ensures ToMap(s') == ToMap(s)[k := v]
  {
    ToMapIndex(s);
    ToMapIndex(s');
    WriteKeys(s, s', k, v);
    forall x | x in ToMap(s')
      ensures ToMap(s')[x] == ToMap(s)[k := v][x]
    {
      KeysOfIndex(s', x);
      var j :| 0 <= j < |s'| && s'[j].key == x;
      assert s[j].key == x;
    }
  }

  /** Overwriting values keeps the key set. */
  lemma {:induction false} WriteKeys<V>(s: seq<Entry<V>>, s': seq<Entry<V>>, k: int, v: V)
    requires |s'| == |s|
    requires forall i :: 0 <= i < |s| ==> s'[i] == if s[i].key == k then Entry(k, v) else s[i]
    ensures KeysOf(s') == KeysOf(s)
  {
    forall x ensures x in KeysOf(s') <==> x in KeysOf(s) {
      KeysOfIndex(s, x);
      KeysOfIndex(s', x);
      assert forall i :: 0 <= i < |s| ==> s'[i].key == s[i].key;
    }
  }

  /** What `at` sees after `insert`: the inserted key has the new value if
      it was fresh and its old value otherwise; other keys are untouched. */
  lemma {:induction false} AtAfterInsert<V>(m: Map<V>, e: Entry<V>, k: int)
    requires ValidMap(m)
    ensures var r := Insert(m, e).0;
            AtKey(r, k) == if k == e.key && e.key !in Contents(m) then Ok(e.value) else AtKey(m, k)
  {
    var r := Insert(m, e).0;
    if k != e.key || e.key in Contents(m) {
      assert k in Contents(r) <==> k in Contents(m);
    }
  }

  /** After `erase`, `count` of the erased key is 0 and `at` throws for it;
      other keys are untouched. */
  lemma {:induction false} AtAfterErase<V>(m: Map<V>, it: Iter, k: int)
    requires ValidMap(m) && ValidIter(m.tree, it) && it.pos.At?
    ensures Erase(m, it).Ok?
    ensures var r := Erase(m, it).value;
            Count(r, it.pos.key) == 0 &&
            AtKey(r, k) == if k == it.pos.key then Err(IndexOutOfBound) else AtKey(m, k)
  {
    var r := Erase(m, it).value;
    if k != it.pos.key {
      assert k in Contents(r) <==> k in Contents(m);
    }
  }

  /** `m[k] = v` then `at(k)` gives `v`, and `at` of any other key is what
      it was. */
  lemma {:induction false} AtAfterPut<V>(m: Map<V>, k: int, v: V, dflt: V, j: int)
    requires ValidMap(m)
    ensures AtKey(Put(m, k, v, dflt), k) == Ok(v)
    ensures j != k ==> AtKey(Put(m, k, v, dflt), j) == AtKey(m, j)
  {
    var r := Put(m, k, v, dflt);
    if j != k {
      assert j in Contents(r) <==> j in Contents(m);
    }
  }
}
