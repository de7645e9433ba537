/** `vector<T>::iterator` and `vector<T>::const_iterator`: a buffer address and an
    index into that buffer. The two classes have the same members with the same
    bodies, so one datatype models both. */
module Iterators {
  import opened Errors

  /** A buffer address; `Null` is `nullptr`. */
  type Ptr = nat

  const Null: Ptr := 0

  /** `ptr_` and `idx_`. */
  datatype Iterator = Iterator(ptr: Ptr, idx: int)

  /** `operator+(n)` and `operator+=(n)`; `++` is `Plus(it, 1)`. The result stays
      in the same buffer, is the same iterator exactly when `n` is 0, and lies
      further on exactly when `n` is positive. */
  function Plus(it: Iterator, n: int): (r: Iterator)
    ensures r.ptr == it.ptr
    ensures Equal(r, it) <==> n == 0
    ensures r.idx > it.idx <==> n > 0
  {
    Iterator(it.ptr, it.idx + n)
  }

  /** `operator-=(n)`: the iterator `n` positions back. `--` is `Minus(it, 1)`.
      This is also what `operator-(n)` is evidently meant to do: the comment above
      `operator+` ends "as well as operator-", and `-` should undo `+` as `-=`
      undoes `+=`. */
  function Minus(it: Iterator, n: int): (r: Iterator)
    ensures Plus(r, n) == it
  {
    Iterator(it.ptr, it.idx - n)
  }

  /** `operator-(n)` as written: it adds `n` to the index, so it is `operator+(n)`,
      and for every non-zero `n` it disagrees with `operator-=(n)` and does not undo
      `+ n`. */
  function MinusAsWritten(it: Iterator, n: int): (r: Iterator)
    ensures r == Plus(it, n)
    ensures n != 0 ==> r != Minus(it, n) && Plus(r, n) != it
  {
    Iterator(it.ptr, it.idx + n)
  }

  /** Moving back and forth by the same amount returns to the start. */
  lemma PlusMinusRoundTrip(it: Iterator, n: int)
    ensures Minus(Plus(it, n), n) == it
    ensures Plus(Minus(it, n), n) == it
  {
  }

  /** A concrete instance: stepping back one from index 5 lands on index 6. */
  lemma MinusAsWrittenExample()
    ensures MinusAsWritten(Iterator(1, 5), 1) == Iterator(1, 6)
    ensures Minus(Iterator(1, 5), 1) == Iterator(1, 4)
  {
  }

  /** `operator-(rhs)`: `invalid_iterator` when the two iterators address different
      buffers; otherwise the number of steps from `b` to `a`. */
  function Distance(a: Iterator, b: Iterator): (r: Result<int>)
    ensures r.Err? <==> a.ptr != b.ptr
    ensures r.Err? ==> r.error == InvalidIterator
    ensures r.Ok? ==> Plus(b, r.value) == a
  {
    if a.ptr != b.ptr then Err(InvalidIterator) else Ok(a.idx - b.idx)
  }

  /** Distance undoes `Plus`, and swapping the operands negates it. */
  lemma DistanceOfPlus(it: Iterator, n: int, other: Iterator)
    ensures Distance(Plus(it, n), it) == Ok(n)
    ensures Distance(it, other).Ok? ==> Distance(other, it) == Ok(-Distance(it, other).value)
  {
  }

  /** `operator==` (and, negated, `operator!=`): same buffer and same index, which
      is exactly equality of the two iterators. */
  function Equal(a: Iterator, b: Iterator): (r: bool)
    ensures r <==> a == b
  {
    a.ptr == b.ptr && a.idx == b.idx
  }

  /** Equal iterators are exactly those at distance zero. */
  lemma EqualIffZeroDistance(a: Iterator, b: Iterator)
    ensures Equal(a, b) <==> Distance(a, b) == Ok(0)
  {
  }
}
