/** The resizable array `vector<T>`: the first `size_` slots of a buffer of
    `capacity_` slots hold the elements. Growth allocates `kSzDefault_`
    slots the first time and doubles afterwards. Checked accesses throw
    `index_out_of_bound` or `container_is_empty`. */
module Vectors {
  import opened Results

  /** `kSzDefault_`: the capacity of the first allocation. */
  const DefaultCapacity: nat := 4

  /** A vector object. `id` stands for its address (compared on
      self-assignment), `elems` for the constructed slots `storage_[0..size_)`,
      `capacity` for `capacity_` and `hasStorage` for `storage_ != nullptr`. */
  datatype Vector<T> = Vector(id: nat, elems: seq<T>, capacity: nat, hasStorage: bool)

  /** The representation invariant: the elements fit in the buffer, and
      without a buffer there is no capacity. */
  predicate Valid<T>(v: Vector<T>) {
    |v.elems| <= v.capacity && (!v.hasStorage ==> v.capacity == 0)
  }

  // ---------------------------------------------------------------------
  // Construction and clearing

  /** `vector()`: no buffer, nothing stored. */
  function EmptyVector<T>(id: nat): (v: Vector<T>)
    ensures Valid(v) && v.id == id && |v.elems| == 0 && v.capacity == 0 && !v.hasStorage
  {
    Vector(id, [], 0, false)
  }

  /** `clear`: destroys the elements and frees the buffer. */
  function Clear<T>(v: Vector<T>): (r: Vector<T>)
    ensures Valid(r) && r.id == v.id && |r.elems| == 0 && r.capacity == 0 && !r.hasStorage
  {
    EmptyVector(v.id)
  }

  // ---------------------------------------------------------------------
  // Checked access

  /** `at` and both `operator[]`: `index_out_of_bound` unless `pos < size`,
      else element `pos` (`checkPosition_`). */
  function At<T>(v: Vector<T>, pos: nat): (r: Result<T>)
    ensures r.Err? <==> pos >= |v.elems|
    ensures r.Err? ==> r.error == IndexOutOfBound
    ensures r.Ok? ==> pos < |v.elems| && r.value == v.elems[pos]
  {
    if pos >= |v.elems| then Err(IndexOutOfBound) else Ok(v.elems[pos])
  }

  /** `front`: `container_is_empty` on an empty vector (`checkNonEmpty_`),
      else `at(0)`. */
  function Front<T>(v: Vector<T>): (r: Result<T>)
    ensures r.Err? <==> |v.elems| == 0
    ensures r.Err? ==> r.error == ContainerIsEmpty
    ensures r.Ok? ==> r == At(v, 0) && r.value == v.elems[0]
  {
    if |v.elems| == 0 then Err(ContainerIsEmpty) else At(v, 0)
  }

  /** `back`: `container_is_empty` on an empty vector, else `at(size - 1)`. */
  function Back<T>(v: Vector<T>): (r: Result<T>)
    ensures r.Err? <==> |v.elems| == 0
    ensures r.Err? ==> r.error == ContainerIsEmpty
    ensures r.Ok? ==> r == At(v, |v.elems| - 1) && r.value == v.elems[|v.elems| - 1]
  {
    if |v.elems| == 0 then Err(ContainerIsEmpty) else At(v, |v.elems| - 1)
  }

  // ---------------------------------------------------------------------
  // Growth

  /** `grow_(capNew)`: move the elements into a fresh buffer of `capNew`
      slots. Callers never ask for less room than the elements need. */
  function GrowTo<T>(v: Vector<T>, capNew: nat): (r: Vector<T>)
    requires |v.elems| <= capNew
    ensures Valid(r) && r.id == v.id && r.elems == v.elems && r.capacity == capNew && r.hasStorage
  {
    Vector(v.id, v.elems, capNew, true)
  }

  /** The capacity `grow_()` asks for as written: `kSzDefault_` when there is
      no buffer, else twice the capacity. A buffer of capacity 0 stays at 0. */
  function NextCapacityAsWritten<T>(v: Vector<T>): (c: nat)
    ensures c == 0 <==> v.hasStorage && v.capacity == 0
  {
    if v.hasStorage then 2 * v.capacity else DefaultCapacity
  }

  /** The capacity `grow_()` is meant to ask for: `kSzDefault_` when there is
      no room at all, else twice the capacity. It always adds room. */
  function NextCapacity<T>(v: Vector<T>): (c: nat)
    ensures c > v.capacity && c >= 2 * v.capacity && (v.capacity == 0 ==> c == DefaultCapacity)
  {
    if v.capacity == 0 then DefaultCapacity else 2 * v.capacity
  }

  /** The buffer a full vector is moved to before it takes one more element,
      with the corrected growth rule; a vector with room keeps its buffer. */
  function Reserve<T>(v: Vector<T>): (r: Vector<T>)
    requires Valid(v)
    ensures Valid(r) && r.id == v.id && r.elems == v.elems && |r.elems| < r.capacity
    ensures |v.elems| < v.capacity ==> r == v
    ensures |v.elems| == v.capacity ==> r.capacity == NextCapacity(v) && r.hasStorage
  {
    if |v.elems| == v.capacity then GrowTo(v, NextCapacity(v)) else v
  }

  /** The buffer a full vector is moved to as written (`if (size_ ==
      capacity_) grow_()`): there is room for one more element unless the
      vector holds a buffer of capacity 0, which stays full. */
  function ReserveAsWritten<T>(v: Vector<T>): (r: Vector<T>)
    requires Valid(v)
    ensures r.id == v.id && r.elems == v.elems
    ensures |v.elems| < v.capacity ==> r == v
    ensures |v.elems| == v.capacity ==> r.capacity == NextCapacityAsWritten(v) && r.hasStorage
    ensures |r.elems| < r.capacity <==> !(v.hasStorage && v.capacity == 0)
  {
    if |v.elems| == v.capacity then GrowTo(v, NextCapacityAsWritten(v)) else v
  }

  // ---------------------------------------------------------------------
  // push_back and pop_back

  /** `push_back` as written: grows by `NextCapacityAsWritten` when full,
      then constructs the value in slot `size_`. */
  function PushBackAsWritten<T>(v: Vector<T>, x: T): (r: Vector<T>)
    requires Valid(v)
    ensures r.elems == v.elems + [x] && r.id == v.id
    ensures |v.elems| == v.capacity ==> r.capacity == NextCapacityAsWritten(v)
    ensures Valid(r) <==> !(v.hasStorage && v.capacity == 0)
  {
    var w := ReserveAsWritten(v);
    w.(elems := w.elems + [x])
  }

  /** `push_back` with the corrected growth rule: the value lands at index
      `size`, the earlier elements stay, and the vector stays valid. */
  function PushBack<T>(v: Vector<T>, x: T): (r: Vector<T>)
    requires Valid(v)
    ensures Valid(r) && r.id == v.id && r.elems == v.elems + [x]
    ensures |v.elems| < v.capacity ==> r.capacity == v.capacity && r.hasStorage == v.hasStorage
  {
    var w := Reserve(v);
    w.(elems := w.elems + [x])
  }

  /** `pop_back`: `container_is_empty` on an empty vector, else the last
      element is destroyed; the buffer stays. */
  function PopBack<T>(v: Vector<T>): (r: Result<Vector<T>>)
    ensures r.Err? <==> |v.elems| == 0
    ensures r.Err? ==> r.error == ContainerIsEmpty
    ensures r.Ok? ==> r.value.elems == v.elems[..|v.elems| - 1] && r.value.id == v.id &&
                      r.value.capacity == v.capacity && r.value.hasStorage == v.hasStorage
    ensures r.Ok? && Valid(v) ==> Valid(r.value)
  {
    if |v.elems| == 0 then Err(ContainerIsEmpty)
    else Ok(v.(elems := v.elems[..|v.elems| - 1]))
  }

  // ---------------------------------------------------------------------
  // insert and erase at an index

  /** `insert(ix, value)` with the corrected growth rule:
      `index_out_of_bound` when `ix > size`; otherwise grow if full, shift
      the suffix right by one, store the value at `ix`. */
  method Insert<T>(v: Vector<T>, ix: nat, x: T) returns (r: Result<Vector<T>>)
    requires Valid(v)
    ensures r.Err? <==> ix > |v.elems|
    ensures r.Err? ==> r.error == IndexOutOfBound
    ensures r.Ok? ==> var w := r.value;
              Valid(w) && w.id == v.id && |w.elems| == |v.elems| + 1 &&
              w.elems[ix] == x && w.elems[..ix] == v.elems[..ix] && w.elems[ix + 1..] == v.elems[ix..]
    ensures r.Ok? ==> r.value.capacity == Reserve(v).capacity && r.value.hasStorage == Reserve(v).hasStorage
  {
    if ix > |v.elems| {
      return Err(IndexOutOfBound);
    }
    var w := Reserve(v);
    var a := ShiftIn(w.elems, ix, x);
    return Ok(w.(elems := a));
  }

  /** `insert(ix, value)` as written: the same, but growing by
      `NextCapacityAsWritten`, so the result overruns its buffer exactly
      when the vector holds a buffer of capacity 0. */
  method InsertAsWritten<T>(v: Vector<T>, ix: nat, x: T) returns (r: Result<Vector<T>>)
    requires Valid(v)
    ensures r.Err? <==> ix > |v.elems|
    ensures r.Err? ==> r.error == IndexOutOfBound
    ensures r.Ok? ==> var w := r.value;
              w.id == v.id && |w.elems| == |v.elems| + 1 &&
              w.elems[ix] == x && w.elems[..ix] == v.elems[..ix] && w.elems[ix + 1..] == v.elems[ix..]
    ensures r.Ok? ==> r.value.capacity == ReserveAsWritten(v).capacity &&
                      r.value.hasStorage == ReserveAsWritten(v).hasStorage
    ensures r.Ok? ==> (Valid(r.value) <==> !(v.hasStorage && v.capacity == 0))
  {
    if ix > |v.elems| {
      return Err(IndexOutOfBound);
    }
    var w := ReserveAsWritten(v);
    var a := ShiftIn(w.elems, ix, x);
    return Ok(w.(elems := a));
  }

  /** The loop of `insert`: from the back, slot `i` takes the element of
      slot `i - 1` down to `ix`, then slot `ix` takes the value. Slot
      `size_` is raw storage; its first store is the move at `i == size_`,
      or the store of the value when `ix == size_`. */
  method ShiftIn<T>(elems: seq<T>, ix: nat, x: T) returns (a: seq<T>)
    requires ix <= |elems|
    ensures |a| == |elems| + 1 && a[ix] == x
    ensures a[..ix] == elems[..ix] && a[ix + 1..] == elems[ix..]
  {
    var n := |elems|;
    a := elems + [x];
    var i := n;
    while i > ix
      invariant ix <= i <= n && |a| == n + 1
      invariant forall j :: 0 <= j < i ==> a[j] == elems[j]
      invariant forall j :: i < j <= n ==> a[j] == elems[j - 1]
      decreases i
    {
      a := a[i := a[i - 1]];
      i := i - 1;
    }
    a := a[ix := x];
    assert a[..ix] == elems[..ix];
    assert a[ix + 1..] == elems[ix..];
  }

  /** `erase(ix)`: `index_out_of_bound` when `ix >= size`; otherwise shift
      the suffix left by one from the front and destroy the last slot. */
  method Erase<T>(v: Vector<T>, ix: nat) returns (r: Result<Vector<T>>)
    requires Valid(v)
    ensures r.Err? <==> ix >= |v.elems|
    ensures r.Err? ==> r.error == IndexOutOfBound
    ensures r.Ok? ==> var w := r.value;
              Valid(w) && w.id == v.id && w.capacity == v.capacity && w.hasStorage == v.hasStorage &&
              |w.elems| == |v.elems| - 1 && w.elems[..ix] == v.elems[..ix] && w.elems[ix..] == v.elems[ix + 1..]
  {
    if ix >= |v.elems| {
      return Err(IndexOutOfBound);
    }
    var n := |v.elems|;
    var a := v.elems;
    var i := ix;
    while i + 1 < n
      invariant ix <= i < n && |a| == n
      invariant forall j :: 0 <= j < ix ==> a[j] == v.elems[j]
      invariant forall j :: ix <= j < i ==> a[j] == v.elems[j + 1]
      invariant forall j :: i <= j < n ==> a[j] == v.elems[j]
    {
      a := a[i := a[i + 1]];
      i := i + 1;
    }
    a := a[..n - 1];
    assert a[..ix] == v.elems[..ix];
    assert a[ix..] == v.elems[ix + 1..];
    return Ok(v.(elems := a));
  }

  // ---------------------------------------------------------------------
  // Copying

  /** `operator=`: nothing happens on self-assignment; otherwise clear,
      allocate the other vector's capacity, copy its elements one by one. */
  method Assign<T>(v: Vector<T>, other: Vector<T>) returns (r: Vector<T>)
    requires Valid(other) && (v.id == other.id ==> v == other)
    ensures Valid(r) && r.id == v.id && r.elems == other.elems && r.capacity == other.capacity
    ensures v.id != other.id ==> r.hasStorage
    ensures v.id == other.id ==> r == v
  {
    if v.id == other.id {
      return v;
    }
    var w := GrowTo(Clear(v), other.capacity);
    var a: seq<T> := [];
    var i := 0;
    while i < |other.elems|
      invariant 0 <= i <= |other.elems| && a == other.elems[..i]
    {
      a := a + [other.elems[i]];
      i := i + 1;
    }
    return w.(elems := a);
  }

  /** The copy constructor: a fresh object assigned from `other`. */
  method Copy<T>(other: Vector<T>, id: nat) returns (r: Vector<T>)
    requires Valid(other) && id != other.id
    ensures Valid(r) && r.id == id && r.elems == other.elems && r.capacity == other.capacity && r.hasStorage
  {
    r := Assign(EmptyVector(id), other);
  }

  // ---------------------------------------------------------------------
  // Properties

  /** `pop_back` undoes `push_back`, and `back` after `push_back` is the
      pushed value; every earlier index reads as before. */
  lemma {:induction false} PushBackPopBack<T>(v: Vector<T>, x: T, i: nat)
    requires Valid(v)
    ensures PopBack(PushBack(v, x)).Ok? && PopBack(PushBack(v, x)).value.elems == v.elems
    ensures Back(PushBack(v, x)) == Ok(x)
    ensures i < |v.elems| ==> At(PushBack(v, x), i) == At(v, i)
  {
    var r := PushBack(v, x);
    assert r.elems[..|r.elems| - 1] == v.elems;
  }

  /** Pushing back the element `pop_back` removed restores the vector,
      buffer included: the popped vector has room for it. */
  lemma {:induction false} PopBackPushBack<T>(v: Vector<T>)
    requires Valid(v) && |v.elems| > 0
    ensures PushBack(PopBack(v).value, v.elems[|v.elems| - 1]) == v
  {
    var p := PopBack(v).value;
    assert p.elems + [v.elems[|v.elems| - 1]] == v.elems;
  }

  /** Corrected growth: a full valid vector always gains room, so the slot
      `push_back` writes lies inside the buffer. */
  lemma {:induction false} GrowthAddsRoom<T>(v: Vector<T>)
    requires Valid(v) && |v.elems| == v.capacity
    ensures |v.elems| < GrowTo(v, NextCapacity(v)).capacity
  {
  }

  /** The two growth rules differ only on a buffer of capacity 0. */
  lemma {:induction false} ReserveAgrees<T>(v: Vector<T>)
    requires Valid(v)
    ensures ReserveAsWritten(v) == Reserve(v) <==> !(v.hasStorage && v.capacity == 0)
  {
  }

  /** Erasing what was just inserted at `ix` gives back the elements. */
  method InsertThenErase<T>(v: Vector<T>, ix: nat, x: T) returns (r: Result<Vector<T>>)
    requires Valid(v) && ix <= |v.elems|
    ensures r.Ok? && r.value.elems == v.elems
  {
    var w := Insert(v, ix, x);
    r := Erase(w.value, ix);
    var e := r.value.elems;
    assert e == e[..ix] + e[ix..];
    assert v.elems == v.elems[..ix] + v.elems[ix..];
  }

  /** Inserting the erased element back at its index gives back the
      elements. */
  method EraseThenInsert<T>(v: Vector<T>, ix: nat) returns (r: Result<Vector<T>>)
    requires Valid(v) && ix < |v.elems|
    ensures r.Ok? && r.value.elems == v.elems
  {
    var w := Erase(v, ix);
    r := Insert(w.value, ix, v.elems[ix]);
    var e := r.value.elems;
    assert e == e[..ix] + [e[ix]] + e[ix + 1..];
    assert v.elems == v.elems[..ix] + [v.elems[ix]] + v.elems[ix + 1..];
  }

  /** `insert(size(), value)` is `push_back(value)`: same elements, same
      buffer. */
  method InsertAtEnd<T>(v: Vector<T>, x: T) returns (r: Result<Vector<T>>)
    requires Valid(v)
    ensures r == Ok(PushBack(v, x))
  {
    r := Insert(v, |v.elems|, x);
    assert r.value.elems == r.value.elems[..|v.elems|] + [r.value.elems[|v.elems|]];
    assert r.value.elems == v.elems + [x];
  }

  /** The copy of a vector that never allocated: `operator=` calls
      `grow_(0)`, leaving a buffer of capacity 0; `push_back` as written then
      doubles 0 to 0 and stores one element past the end of that buffer. */
  method CopyEmptyThenPushBackAsWritten<T>(x: T) returns (r: Vector<T>)
    ensures |r.elems| == 1 && r.capacity == 0 && !Valid(r)
  {
    var c := Copy(EmptyVector<T>(0), 1);
    r := PushBackAsWritten(c, x);
  }

  /** The same sequence with the corrected growth rule keeps the element
      inside the buffer. */
  method CopyEmptyThenPushBack<T>(x: T) returns (r: Vector<T>)
    ensures Valid(r) && r.elems == [x] && r.capacity == DefaultCapacity
  {
    var c := Copy(EmptyVector<T>(0), 1);
    r := PushBack(c, x);
  }

  /** `insert(0, value)` on the copy of a vector that never allocated: as
      written, `grow_()` again doubles 0 to 0 and the value is stored past
      the end of the buffer. */
  method CopyEmptyThenInsertAsWritten<T>(x: T) returns (r: Result<Vector<T>>)
    ensures r.Ok? && r.value.elems == [x] && r.value.capacity == 0 && !Valid(r.value)
  {
    var c := Copy(EmptyVector<T>(0), 1);
    r := InsertAsWritten(c, 0, x);
    assert r.value.elems == [r.value.elems[0]];
  }

  /** The same sequence with the corrected growth rule keeps the element
      inside the buffer. */
  method CopyEmptyThenInsert<T>(x: T) returns (r: Result<Vector<T>>)
    ensures r.Ok? && Valid(r.value) && r.value.elems == [x] && r.value.capacity == DefaultCapacity
  {
    var c := Copy(EmptyVector<T>(0), 1);
    r := Insert(c, 0, x);
    assert r.value.elems == [r.value.elems[0]];
  }
}
