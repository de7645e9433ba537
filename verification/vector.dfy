/** `vector<T>`: a contiguous buffer of `capacity_` slots whose first `size_` slots
    hold the elements. A vector value is its element sequence, its capacity and the
    address of its buffer; the address returned by `malloc` is a parameter `newBuf`
    of every operation that may allocate. */
module Vector {
  import opened Errors
  import opened Iterators

  /** `data_[0..size_)`, `capacity_` and `data_`. */
  datatype Vector<T> = Vector(elems: seq<T>, capacity: nat, data: Ptr)

  /** The class invariant: the elements fit in the buffer. */
  predicate Valid<T>(v: Vector<T>) {
    |v.elems| <= v.capacity
  }

  /** The default constructor: no elements, no buffer, `begin() == end()`, and
      `front()` throws. */
  function EmptyVector<T>(): (r: Vector<T>)
    ensures Valid(r) && |r.elems| == 0 && r.capacity == 0
    ensures Equal(Begin(r), End(r))
    ensures Front(r) == Err(ContainerIsEmpty)
  {
    Vector([], 0, Null)
  }

  /** `begin()` and `cbegin()`. */
  function Begin<T>(v: Vector<T>): Iterator {
    Iterator(v.data, 0)
  }

  /** `end()` and `cend()`. */
  function End<T>(v: Vector<T>): Iterator {
    Iterator(v.data, |v.elems|)
  }

  /** `end() - begin()` is the size. */
  lemma EndMinusBegin<T>(v: Vector<T>)
    ensures Distance(End(v), Begin(v)) == Ok(|v.elems|)
  {
  }

  /** `at(pos)` and `operator[](pos)`, const and non-const: `index_out_of_bound`
      exactly when `pos` is not below the size, otherwise the element at `pos`. */
  function At<T>(v: Vector<T>, pos: nat): (r: Result<T>)
    ensures r.Err? <==> pos >= |v.elems|
    ensures r.Err? ==> r.error == IndexOutOfBound
    ensures r.Ok? ==> r.value == v.elems[pos]
  {
    if pos >= |v.elems| then Err(IndexOutOfBound) else Ok(v.elems[pos])
  }

  /** `*it` for an iterator into this vector's buffer and inside its elements:
      the same element `at` returns for the iterator's distance from `begin()`. */
  function Deref<T>(v: Vector<T>, it: Iterator): (r: T)
    requires it.ptr == v.data && 0 <= it.idx < |v.elems|
    ensures Distance(it, Begin(v)).Ok?
    ensures At(v, Distance(it, Begin(v)).value) == Ok(r)
  {
    v.elems[it.idx]
  }

  /** A write through the reference that non-const `at(pos)` or `operator[](pos)`
      returns (`v[pos] = x`): `index_out_of_bound` exactly when `pos` is not below
      the size; otherwise only the element at `pos` changes, to `x`. */
  function SetAt<T>(v: Vector<T>, pos: nat, x: T): (r: Result<Vector<T>>)
    requires Valid(v)
    ensures r.Err? <==> pos >= |v.elems|
    ensures r.Err? ==> r.error == IndexOutOfBound
    ensures r.Ok? ==> && Valid(r.value)
                      && |r.value.elems| == |v.elems|
                      && At(r.value, pos) == Ok(x)
                      && (forall j :: 0 <= j < |v.elems| && j != pos ==> r.value.elems[j] == v.elems[j])
                      && r.value.capacity == v.capacity && r.value.data == v.data
  {
    if pos >= |v.elems| then Err(IndexOutOfBound) else Ok(Vector(v.elems[pos := x], v.capacity, v.data))
  }

  /** Writing back the value `at(pos)` read changes nothing, and of two writes to
      the same position the later one wins. */
  lemma SetAtRoundTrip<T>(v: Vector<T>, pos: nat, x: T, y: T)
    requires Valid(v) && pos < |v.elems|
    ensures SetAt(v, pos, At(v, pos).value) == Ok(v)
    ensures SetAt(SetAt(v, pos, x).value, pos, y) == SetAt(v, pos, y)
  {
    assert v.elems[pos := v.elems[pos]] == v.elems;
    assert v.elems[pos := x][pos := y] == v.elems[pos := y];
  }

  /** A write through `*it` for an iterator into this vector's buffer and inside
      its elements: the write `v[it - begin()] = x`. */
  function SetDeref<T>(v: Vector<T>, it: Iterator, x: T): (r: Vector<T>)
    requires Valid(v)
    requires it.ptr == v.data && 0 <= it.idx < |v.elems|
    ensures Distance(it, Begin(v)).Ok?
    ensures SetAt(v, Distance(it, Begin(v)).value, x) == Ok(r)
    ensures Deref(r, it) == x
  {
    Vector(v.elems[it.idx := x], v.capacity, v.data)
  }

  /** `front()`: `container_is_empty` on an empty vector, otherwise `at(0)`. */
  function Front<T>(v: Vector<T>): (r: Result<T>)
    ensures r.Err? <==> |v.elems| == 0
    ensures r.Err? ==> r.error == ContainerIsEmpty
    ensures r.Ok? ==> At(v, 0) == r
  {
    if |v.elems| == 0 then Err(ContainerIsEmpty) else Ok(v.elems[0])
  }

  /** `back()`: `container_is_empty` on an empty vector, otherwise `at(size - 1)`. */
  function Back<T>(v: Vector<T>): (r: Result<T>)
    ensures r.Err? <==> |v.elems| == 0
    ensures r.Err? ==> r.error == ContainerIsEmpty
    ensures r.Ok? ==> At(v, |v.elems| - 1) == r
  {
    if |v.elems| == 0 then Err(ContainerIsEmpty) else Ok(v.elems[|v.elems| - 1])
  }

  /** The capacity `insert` and `push_back` ask for when the buffer is full:
      1 for an empty buffer, twice the old capacity otherwise. */
  function GrownCapacity(c: nat): (n: nat)
    ensures c < n <= 2 * c + 1
    ensures c > 0 ==> n == 2 * c
  {
    if c == 0 then 1 else 2 * c
  }

  /** `reserve(newCap)` (private): the elements move into a new buffer of
      `newCap` slots. Every caller asks for more slots than there are elements. */
  function Reserve<T>(v: Vector<T>, newCap: nat, newBuf: Ptr): (r: Vector<T>)
    requires |v.elems| <= newCap
    ensures Valid(r)
    ensures r.elems == v.elems
    ensures r.capacity == newCap && r.data == newBuf
  {
    Vector(v.elems, newCap, newBuf)
  }

  /** The check that `insert` and `push_back` make before writing: a full buffer is
      replaced by a grown one; afterwards there is room for one more element. */
  function GrowIfFull<T>(v: Vector<T>, newBuf: Ptr): (r: Vector<T>)
    requires Valid(v)
    ensures r.elems == v.elems
    ensures |r.elems| < r.capacity
    ensures |v.elems| < v.capacity ==> r == v
    ensures |v.elems| == v.capacity ==> r.capacity == GrownCapacity(v.capacity) && r.data == newBuf
  {
    if |v.elems| == v.capacity then Reserve(v, GrownCapacity(v.capacity), newBuf) else v
  }

  /** `insert(ind, value)`: `index_out_of_bound` when `ind` exceeds the size (the
      size itself is allowed); otherwise `value` is placed at `ind`, the elements
      from `ind` on move one place up, `at(ind)` is `value` and the returned
      iterator points at `ind`. */
  function Insert<T>(v: Vector<T>, ind: nat, value: T, newBuf: Ptr): (r: Result<(Vector<T>, Iterator)>)
    requires Valid(v)
    ensures r.Err? <==> ind > |v.elems|
    ensures r.Err? ==> r.error == IndexOutOfBound
    ensures r.Ok? ==>
              var (w, it) := r.value;
              && Valid(w)
              && |w.elems| == |v.elems| + 1
              && At(w, ind) == Ok(value)
              && (forall k :: 0 <= k < ind ==> w.elems[k] == v.elems[k])
              && (forall k :: ind < k < |w.elems| ==> w.elems[k] == v.elems[k - 1])
              && w.capacity == GrowIfFull(v, newBuf).capacity
              && w.data == GrowIfFull(v, newBuf).data
              && Distance(it, Begin(w)) == Ok(ind)
  {
    if ind > |v.elems| then Err(IndexOutOfBound)
    else
      var g := GrowIfFull(v, newBuf);
      var w := Vector(g.elems[..ind] + [value] + g.elems[ind..], g.capacity, g.data);
      Ok((w, Iterator(w.data, ind)))
  }

  /** `erase(ind)`: `index_out_of_bound` when `ind` is not below the size;
      otherwise the element at `ind` is removed, the later ones move one place
      down, the capacity and buffer are kept and the returned iterator points at
      `ind`. */
  function Erase<T>(v: Vector<T>, ind: nat): (r: Result<(Vector<T>, Iterator)>)
    requires Valid(v)
    ensures r.Err? <==> ind >= |v.elems|
    ensures r.Err? ==> r.error == IndexOutOfBound
    ensures r.Ok? ==>
              var (w, it) := r.value;
              && Valid(w)
              && |w.elems| + 1 == |v.elems|
              && (forall k :: 0 <= k < ind ==> w.elems[k] == v.elems[k])
              && (forall k :: ind <= k < |w.elems| ==> w.elems[k] == v.elems[k + 1])
              && w.capacity == v.capacity && w.data == v.data
              && Distance(it, Begin(w)) == Ok(ind)
  {
    if ind >= |v.elems| then Err(IndexOutOfBound)
    else
      var w := Vector(v.elems[..ind] + v.elems[ind + 1..], v.capacity, v.data);
      Ok((w, Iterator(w.data, ind)))
  }

  /** `push_back(value)`: the old elements followed by `value`, growing the buffer
      when it was full. */
  function PushBack<T>(v: Vector<T>, value: T, newBuf: Ptr): (w: Vector<T>)
    requires Valid(v)
    ensures Valid(w)
    ensures |w.elems| == |v.elems| + 1
    ensures w.elems[..|v.elems|] == v.elems
    ensures Back(w) == Ok(value)
    ensures w.capacity == GrowIfFull(v, newBuf).capacity && w.data == GrowIfFull(v, newBuf).data
  {
    var g := GrowIfFull(v, newBuf);
    Vector(g.elems + [value], g.capacity, g.data)
  }

  /** `pop_back()`: `container_is_empty` on an empty vector; otherwise the last
      element (`back()`) is removed and the buffer is kept. */
  function PopBack<T>(v: Vector<T>): (r: Result<Vector<T>>)
    requires Valid(v)
    ensures r.Err? <==> |v.elems| == 0
    ensures r.Err? ==> r.error == ContainerIsEmpty
    ensures r.Ok? ==> && Valid(r.value)
                      && r.value.elems + [Back(v).value] == v.elems
                      && r.value.capacity == v.capacity && r.value.data == v.data
  {
    if |v.elems| == 0 then Err(ContainerIsEmpty)
    else Ok(Vector(v.elems[..|v.elems| - 1], v.capacity, v.data))
  }

  /** `clear()`: no elements; capacity and buffer kept. */
  function Clear<T>(v: Vector<T>): (w: Vector<T>)
    requires Valid(v)
    ensures Valid(w)
    ensures Front(w) == Err(ContainerIsEmpty)
    ensures w.capacity == v.capacity && w.data == v.data
  {
    Vector([], v.capacity, v.data)
  }

  /** `operator=`: self-assignment changes nothing; otherwise the size, capacity and
      elements of `other` are copied into a newBuf buffer. */
  function Assign<T>(v: Vector<T>, other: Vector<T>, aliased: bool, newBuf: Ptr): (w: Vector<T>)
    requires aliased ==> v == other
    requires Valid(other)
    ensures Valid(w)
    ensures aliased ==> w == v
    ensures !aliased ==> w.elems == other.elems && w.capacity == other.capacity && w.data == newBuf
  {
    if aliased then v else Vector(other.elems, other.capacity, newBuf)
  }

  /** The copy constructor: assignment into a default-constructed vector. */
  function Copy<T>(other: Vector<T>, newBuf: Ptr): (w: Vector<T>)
    requires Valid(other)
    ensures w.elems == other.elems && w.capacity == other.capacity
  {
    Assign(EmptyVector(), other, false, newBuf)
  }

  /** True when the buffer is full, so that `insert` and `push_back` reallocate.
      `reserve` then frees the old block before the new element is constructed, so
      a `value` that refers into the vector is read from freed memory. */
  predicate ReadsFreedBlock<T>(v: Vector<T>) {
    |v.elems| == v.capacity
  }

  /** `insert(ind, value)` as written, when `value` is a reference to the element
      at index `k` of the same vector and the buffer has room. `value` is read only
      after the move loop, so for `k > ind` the element stored at `ind` is the old
      element `k - 1`, and `at(ind) == value` fails whenever those two differ. The
      other elements land where `insert` puts them. */
  function InsertFromSlotAsWritten<T>(v: Vector<T>, ind: nat, k: nat): (r: Result<(Vector<T>, Iterator)>)
    requires Valid(v) && k < |v.elems| && !ReadsFreedBlock(v)
    ensures r.Err? <==> ind > |v.elems|
    ensures r.Err? ==> r.error == IndexOutOfBound
    ensures r.Ok? ==> && |r.value.0.elems| == |v.elems| + 1
                      && r.value.0.elems[..ind] + r.value.0.elems[ind + 1..] == v.elems
                      && r.value.0.capacity == v.capacity && r.value.0.data == v.data
    ensures r.Ok? && ind < k && v.elems[k - 1] != v.elems[k] ==> At(r.value.0, ind) != Ok(v.elems[k])
  {
    if ind > |v.elems| then Err(IndexOutOfBound)
    else
      var r := Insert(v, ind, SlotAfterShift(v.elems, ind, k), v.data);
      assert r.value.0.elems[..ind] + r.value.0.elems[ind + 1..] == v.elems;
      r
  }

  /** The concrete case: in `[10, 20, 30]` with room for four, `insert(0, v[1])` as
      written stores 10, not 20, at index 0. */
  lemma InsertFromSlotAsWrittenExample()
    ensures InsertFromSlotAsWritten(Vector([10, 20, 30], 4, 1), 0, 1).value.0.elems == [10, 10, 20, 30]
    ensures InsertFromSlot(Vector([10, 20, 30], 4, 1), 0, 1, 2).value.0.elems == [20, 10, 20, 30]
  {
    assert [10, 20, 30][..0] + [10] + [10, 20, 30][0..] == [10, 10, 20, 30];
    assert [10, 20, 30][..0] + [20] + [10, 20, 30][0..] == [20, 10, 20, 30];
  }

  /** `insert(ind, v[k])` with the referenced element copied before the buffer is
      grown or shifted: defined on a full buffer too, and afterwards `at(ind)` is the
      old element `k`, as the comment on `insert` promises. */
  function InsertFromSlot<T>(v: Vector<T>, ind: nat, k: nat, newBuf: Ptr): (r: Result<(Vector<T>, Iterator)>)
    requires Valid(v) && k < |v.elems|
    ensures r.Err? <==> ind > |v.elems|
    ensures r.Err? ==> r.error == IndexOutOfBound
    ensures r.Ok? ==> && At(r.value.0, ind) == Ok(v.elems[k])
                      && r.value.0.elems[..ind] + r.value.0.elems[ind + 1..] == v.elems
  {
    var value := v.elems[k];
    var r := Insert(v, ind, value, newBuf);
    assert r.Ok? ==> r.value.0.elems[..ind] + r.value.0.elems[ind + 1..] == v.elems;
    r
  }

  /** Where the reference names a slot below `ind` (`k < ind`), which the move loop
      neither reads from nor writes to,
      the code as written and the corrected insert agree. */
  lemma InsertFromSlotAgrees<T>(v: Vector<T>, ind: nat, k: nat)
    requires Valid(v) && k < |v.elems| && !ReadsFreedBlock(v) && k < ind
    ensures InsertFromSlotAsWritten(v, ind, k) == InsertFromSlot(v, ind, k, v.data)
  {
  }

  /** Erasing what was just inserted restores the element sequence. */
  lemma EraseUndoesInsert<T>(v: Vector<T>, ind: nat, value: T, newBuf: Ptr)
    requires Valid(v) && ind <= |v.elems|
    ensures Insert(v, ind, value, newBuf).Ok?
    ensures Erase(Insert(v, ind, value, newBuf).value.0, ind).Ok?
    ensures Erase(Insert(v, ind, value, newBuf).value.0, ind).value.0.elems == v.elems
  {
  }

  /** Inserting at the end is `push_back`. */
  lemma InsertAtEndIsPushBack<T>(v: Vector<T>, value: T, newBuf: Ptr)
    requires Valid(v)
    ensures Insert(v, |v.elems|, value, newBuf).Ok?
    ensures Insert(v, |v.elems|, value, newBuf).value.0 == PushBack(v, value, newBuf)
  {
  }

  /** `pop_back` undoes `push_back` on the elements. */
  lemma PopBackUndoesPushBack<T>(v: Vector<T>, value: T, newBuf: Ptr)
    requires Valid(v)
    ensures PopBack(PushBack(v, value, newBuf)).Ok?
    ensures PopBack(PushBack(v, value, newBuf)).value.elems == v.elems
  {
  }

  /** Doubling keeps the buffer small: a vector filled by `push_back` alone has no
      slots when empty and fewer than twice its size otherwise. */
  predicate Tight<T>(v: Vector<T>) {
    Valid(v) && (if |v.elems| == 0 then v.capacity == 0 else v.capacity < 2 * |v.elems|)
  }

  lemma PushBackKeepsTight<T>(v: Vector<T>, value: T, newBuf: Ptr)
    requires Tight(v)
    ensures Tight(PushBack(v, value, newBuf))
  {
  }

  /** What slot `k` of the elements holds once the move loop of `insert` has run
      for position `ind`: slots above `ind` hold their lower neighbour; slot `ind`
      and the slots below it are untouched (slot `ind` keeps its moved-from value,
      which is an ordinary value of `T` here). */
  function SlotAfterShift<T>(elems: seq<T>, ind: nat, k: nat): T
    requires ind <= |elems| && k < |elems|
  {
    if ind < k then elems[k - 1] else elems[k]
  }

  /** The move loop of `insert`, on a buffer of at least `size + 1` slots whose
      first `size` slots hold the elements: slots `size` down to `ind + 1` each take
      the value below them. Slot `ind` and the slots past `size` are untouched. */
  method ShiftUp<T>(buf: seq<T>, size: nat, ind: nat) returns (out: seq<T>)
    requires ind <= size < |buf|
    ensures |out| == |buf|
    ensures out[..ind + 1] == buf[..ind + 1]
    ensures out[ind + 1..size + 1] == buf[ind..size]
    ensures out[size + 1..] == buf[size + 1..]
    ensures forall k :: 0 <= k < size ==> out[k] == SlotAfterShift(buf[..size], ind, k)
  {
    out := buf;
    var i := size;
    while i > ind
      invariant ind <= i <= size
      invariant |out| == |buf|
      invariant forall k :: 0 <= k <= i ==> out[k] == buf[k]
      invariant forall k :: i < k <= size ==> out[k] == buf[k - 1]
      invariant forall k :: size < k < |buf| ==> out[k] == buf[k]
    {
      out := out[i := out[i - 1]];
      i := i - 1;
    }
    assert out[..ind + 1] == buf[..ind + 1];
    assert out[ind + 1..size + 1] == buf[ind..size];
    assert out[size + 1..] == buf[size + 1..];
  }

  /** The element moves of `insert(ind, value)` on a buffer with room, with `value`
      taken by value: the move loop, then `value` into slot `ind`. The first
      `size + 1` slots are what `Insert` gives for the vector of the first `size`
      slots; slots past the new size are untouched. */
  method ShiftInsert<T>(buf: seq<T>, size: nat, ind: nat, value: T) returns (out: seq<T>)
    requires ind <= size < |buf|
    ensures |out| == |buf|
    ensures out[..size + 1] == buf[..ind] + [value] + buf[ind..size]
    ensures out[..size + 1] == Insert(Vector(buf[..size], |buf|, Null), ind, value, Null).value.0.elems
    ensures out[size + 1..] == buf[size + 1..]
  {
    out := ShiftUp(buf, size, ind);
    out := out[ind := value];
    assert out[..size + 1] == buf[..ind] + [value] + buf[ind..size] by {
      assert out[..size + 1] == out[..ind] + [value] + out[ind + 1..size + 1];
      assert out[..ind] == buf[..ind + 1][..ind];
    }
    assert out[size + 1..] == buf[size + 1..];
  }

  /** The element moves of `insert(ind, value)` as written, on a buffer with room,
      when `value` is a reference to the element at index `k` of the same vector:
      the move loop runs first, and only then is `value` read, from slot `k` of the
      shifted buffer. */
  method ShiftInsertFromSlotAsWritten<T>(buf: seq<T>, size: nat, ind: nat, k: nat) returns (out: seq<T>)
    requires ind <= size < |buf| && k < size
    ensures |out| == |buf|
    ensures out[..size + 1] == InsertFromSlotAsWritten(Vector(buf[..size], |buf|, Null), ind, k).value.0.elems
    ensures out[size + 1..] == buf[size + 1..]
  {
    out := ShiftUp(buf, size, ind);
    assert out[k] == SlotAfterShift(buf[..size], ind, k);
    var value := out[k];
    out := out[ind := value];
    assert out[..size + 1] == buf[..ind] + [value] + buf[ind..size] by {
      assert out[..size + 1] == out[..ind] + [value] + out[ind + 1..size + 1];
      assert out[..ind] == buf[..ind + 1][..ind];
    }
    assert out[size + 1..] == buf[size + 1..];
  }

  /** The move loop of `erase`, on a buffer whose first `size` slots hold the
      elements: slots `ind` to `size - 2` each take the value above them. Slot
      `size - 1` keeps its (moved-from) value and later slots are untouched. */
  method ShiftErase<T>(buf: seq<T>, size: nat, ind: nat) returns (out: seq<T>)
    requires ind < size <= |buf|
    ensures |out| == |buf|
    ensures out[..size - 1] == buf[..ind] + buf[ind + 1..size]
    ensures out[..size - 1] == Erase(Vector(buf[..size], |buf|, Null), ind).value.0.elems
    ensures out[size - 1..] == buf[size - 1..]
  {
    out := buf;
    var i := ind;
    while i < size - 1
      invariant ind <= i <= size - 1
      invariant |out| == |buf|
      invariant forall k :: 0 <= k < ind ==> out[k] == buf[k]
      invariant forall k :: ind <= k < i ==> out[k] == buf[k + 1]
      invariant forall k :: i <= k < |buf| ==> out[k] == buf[k]
    {
      out := out[i := out[i + 1]];
      i := i + 1;
    }
    assert out[..size - 1] == buf[..ind] + buf[ind + 1..size];
    assert out[size - 1..] == buf[size - 1..];
  }

  /** The copy loop of `reserve`: the first `size` slots of the old buffer `src` move to
      a freshly allocated buffer `raw`, whose other slots stay as allocated. */
  method Relocate<T>(src: seq<T>, size: nat, raw: seq<T>) returns (buf: seq<T>)
    requires size <= |src| && size <= |raw|
    ensures |buf| == |raw|
    ensures buf[..size] == src[..size]
    ensures buf[..size] == Reserve(Vector(src[..size], size, Null), |raw|, Null).elems
    ensures buf[size..] == raw[size..]
  {
    buf := raw;
    var i := 0;
    while i < size
      invariant 0 <= i <= size
      invariant |buf| == |raw|
      invariant forall k :: 0 <= k < i ==> buf[k] == src[k]
      invariant forall k :: i <= k < |raw| ==> buf[k] == raw[k]
    {
      buf := buf[i := src[i]];
      i := i + 1;
    }
    assert buf[..size] == src[..size];
    assert buf[size..] == raw[size..];
  }
}
