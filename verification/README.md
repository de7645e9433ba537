# STLite containers: a Dafny model of `priority_queue` and `vector`

This project models two independent containers from the STLite library as pure
values and proves properties of them.

- `sjtu::priority_queue<T, Compare>` is a mergeable max-priority queue. It keeps
  a root pointer and a size counter over a skew heap. The private recursive
  `merge(x, y)` makes the winner's old left child its right child. It puts the
  merge of the winner's old right child with the loser in the left slot. No rank
  field is kept. `push`, `pop`, `top`, the public `merge(other)`, the copy
  constructor, `operator=` and the destructor are all built on that merge, on
  `clonenode` and on `clear`.
- `sjtu::vector<T>` is a contiguous buffer with `size_` and `capacity_`. Access is
  bounds-checked. `insert` and `erase` shift elements. The buffer is reallocated
  to twice its capacity (or to one slot) when it is full. Its iterators are a
  (buffer address, index) pair.

Modules:

- `Errors` (`errors.dfy`) holds the three exception classes and a `Result` value
  that replaces throwing.
- `Ordering` (`ordering.dfy`) says what is assumed of `Compare`. `less(a, b)`
  means `a` ranks below `b`. A strict weak ordering is taken as asymmetric and
  negatively transitive.
- `SkewHeap` (`skew_heap.dfy`) holds the node tree, `merge`, `clonenode` and
  `clear`, with multiset and heap-order facts.
- `PriorityQueue` (`priority_queue.dfy`) holds the public queue operations over
  `(root, size)`. The class invariant is `Valid`: the size equals the node count
  and the tree is heap ordered.
- `Iterators` (`iterators.dfy`) holds `iterator`/`const_iterator`. Both classes
  have the same members and bodies, so one datatype models both.
- `Vector` (`vector.dfy`) holds the vector as (elements, capacity, buffer
  address), plus the three element-moving loops as methods over a raw buffer.

How the environment becomes parameters:

- `Compare` becomes a parameter `less: (T, T) -> bool`.
- The address `malloc` returns becomes a parameter `newBuf`.
- Object identity is an `aliased` flag. It is used for the self-checks in
  `merge(other)` and in both `operator=`. The flag requires the two operands to be
  equal values.

Heap order follows the code: for every node N and child C, `less(N.val, C.val)`
is false, so the root holds a value nothing outranks.

## Model

| member | source | states |
|---|---|---|
| SkewHeap.Merge | priority_queue/src/priority_queue.hpp:26-38 | The node count of the result is the sum of the inputs' counts. If either tree is null, the result is the other tree unchanged, whatever `Compare` is. Otherwise the root is y's root when `Compare(x.val, y.val)`, and x's root otherwise. |
| SkewHeap.MergeKeepsElems | priority_queue/src/priority_queue.hpp:26-38 | No node is lost or duplicated: the merged tree holds exactly the multiset union of both inputs. |
| SkewHeap.MergePreservesHeapOrder | priority_queue/src/priority_queue.hpp:29-37 | Merging two heap-ordered trees gives a heap-ordered tree, for any asymmetric `Compare`. |
| SkewHeap.RootIsExtremal | priority_queue/src/priority_queue.hpp:29-37 | In a heap-ordered tree under a strict weak ordering, no stored value outranks the root. |
| SkewHeap.Clone | priority_queue/src/priority_queue.hpp:44-50 | `clonenode` returns a tree structurally equal to its input. |
| SkewHeap.Clear | priority_queue/src/priority_queue.hpp:39-43 | `clear` deletes every node exactly once: the deleted values are the tree's multiset, and their count is the node count. The root is deleted last. |
| PriorityQueue.EmptyQueue | priority_queue/src/priority_queue.hpp:55-58 | The default constructor holds no values and has size 0, and `top` on it throws `container_is_empty`. |
| PriorityQueue.Top | priority_queue/src/priority_queue.hpp:96-101 | `top` throws `container_is_empty` exactly when the size is 0. Otherwise it returns a value held by the queue. |
| PriorityQueue.TopIsExtremal | priority_queue/src/priority_queue.hpp:96-101 | In a valid queue, no held value outranks what `top` returns. |
| PriorityQueue.Size | priority_queue/src/priority_queue.hpp:136-138 | `size` is the number of values held, counted with multiplicity. |
| PriorityQueue.Empty | priority_queue/src/priority_queue.hpp:144-146 | `empty` is true exactly when the queue holds no values. |
| PriorityQueue.Push | priority_queue/src/priority_queue.hpp:107-116 | `push(e)` adds exactly one copy of `e` and raises the size by one. The queue stays valid. |
| PriorityQueue.Pop | priority_queue/src/priority_queue.hpp:122-130 | `pop` throws `container_is_empty` exactly on an empty queue. Otherwise it removes one copy of the old top value and lowers the size by one. The queue stays valid. |
| PriorityQueue.MergeFromAsWritten | priority_queue/src/priority_queue.hpp:154-169 | The public `merge(other)` as written can only be called when both roots exist, because line 160 reads both root values. On the same queue it is a no-op. Otherwise the sizes add, the multisets unite, the result is valid and `other` ends empty. |
| PriorityQueue.MergeWithEmptyReadsNull | priority_queue/src/priority_queue.hpp:160 | Merging a one-element queue into an empty one, or an empty one into it, falls outside what line 160 can evaluate. |
| PriorityQueue.MergeFrom | priority_queue/src/priority_queue.hpp:154-165 | The public `merge(other)` without the discarded comparison has the same guarantees as the written version. When either queue is empty, the result is the other queue. |
| PriorityQueue.MergeFromAgrees | priority_queue/src/priority_queue.hpp:159-165 | Wherever the written `merge(other)` is defined, the corrected merge gives the same result. |
| PriorityQueue.Copy | priority_queue/src/priority_queue.hpp:64-67 | The copy constructor yields a queue equal to the original, including its size. |
| PriorityQueue.Assign | priority_queue/src/priority_queue.hpp:81-89 | `operator=` yields a queue equal to `other`. Self-assignment leaves the queue unchanged. |
| PriorityQueue.Destroy | priority_queue/src/priority_queue.hpp:72-74 | The destructor deletes exactly the held values, one node per value. |
| PriorityQueue.Drain | priority_queue/src/priority_queue.hpp:96-130 | Repeating `top` then `pop` until the queue is empty yields each held value exactly once. No value outranks one that came out before it. |
| Iterators.Plus | vector/src/vector.hpp:57-61 | `+`/`+=` by n keep the buffer. The result equals the start exactly when n is 0, and lies further on exactly when n is positive. |
| Iterators.PlusMinusRoundTrip | vector/src/vector.hpp:57-82 | Moving an iterator forward by n with `+`/`+=` and back by n with `-=` returns to the start, in either order. |
| Iterators.Minus | vector/src/vector.hpp:79-82 | `-=` by n gives the iterator from which `+ n` returns to the start. This is also the evident intent of `operator-(n)`, inferred from `-=` and from `-` undoing `+`. |
| Iterators.MinusAsWritten | vector/src/vector.hpp:62-66 | The written `operator-(n)` equals `operator+(n)`. For every non-zero n it disagrees with `operator-=(n)` and does not undo `+ n`. |
| Iterators.MinusAsWrittenExample | vector/src/vector.hpp:62-66 | Stepping back by one from index 5 with the written `operator-` lands on index 6, not 4. |
| Iterators.Distance | vector/src/vector.hpp:67-74 | The difference of two iterators throws `invalid_iterator` exactly when their buffers differ. Otherwise it is the n with `rhs + n == lhs`. |
| Iterators.DistanceOfPlus | vector/src/vector.hpp:69-74 | The difference undoes `+ n`, and swapping the operands negates it. |
| Iterators.Equal | vector/src/vector.hpp:122-127 | Iterator `==` holds exactly when both the buffer and the index match. |
| Iterators.EqualIffZeroDistance | vector/src/vector.hpp:122-124 | Two iterators are equal exactly when their difference is 0. |
| Vector.EmptyVector | vector/src/vector.hpp:245 | The default constructor has no elements and capacity 0. `begin() == end()`, and `front` throws `container_is_empty`. |
| Vector.EndMinusBegin | vector/src/vector.hpp:334-354 | `end() - begin()` is the size. |
| Vector.At | vector/src/vector.hpp:281-310 | `at(pos)` and `operator[](pos)` throw `index_out_of_bound` exactly when `pos >= size`. Otherwise they return the element at `pos`. |
| Vector.Deref | vector/src/vector.hpp:116-118 | `*it`, for an iterator into the vector's buffer within its elements, is what `at` returns for the iterator's distance from `begin()`. |
| Vector.SetAt | vector/src/vector.hpp:281-304 | Assigning through the reference from non-const `at(pos)` or `operator[](pos)` throws `index_out_of_bound` exactly when `pos >= size`. Otherwise `at(pos)` becomes the new value, every other element stays, and capacity and buffer are kept. |
| Vector.SetAtRoundTrip | vector/src/vector.hpp:281-304 | Writing back the value `at(pos)` returned changes nothing. Of two writes to the same position, the later one wins. |
| Vector.SetDeref | vector/src/vector.hpp:116-118 | Assigning through `*it` is the write `v[it - begin()] = x`, and `*it` then reads `x`. |
| Vector.Front | vector/src/vector.hpp:315-320 | `front` throws `container_is_empty` exactly on an empty vector. Otherwise it returns `at(0)`. |
| Vector.Back | vector/src/vector.hpp:325-330 | `back` throws `container_is_empty` exactly on an empty vector. Otherwise it returns `at(size - 1)`. |
| Vector.GrownCapacity | vector/src/vector.hpp:397 | The requested capacity is above the old one. It is exactly double when the old capacity is non-zero, and 1 otherwise. |
| Vector.Reserve | vector/src/vector.hpp:458-466 | `reserve` keeps the element sequence and sets the capacity and the buffer. The result satisfies `size <= capacity`. |
| Vector.GrowIfFull | vector/src/vector.hpp:396-398 | The growth check keeps the elements and leaves room for one more. It changes nothing when the buffer has room, and otherwise grows the capacity as `GrownCapacity` says into a new buffer. |
| Vector.Insert | vector/src/vector.hpp:392-405 | `insert(ind, v)` throws `index_out_of_bound` exactly when `ind > size`. Otherwise the new sequence is the old one with `v` at `ind` and later elements one place up, so `at(ind) == v`. The capacity follows the growth rule, `size <= capacity` holds, and the returned iterator is `ind` past `begin()`. |
| Vector.Erase | vector/src/vector.hpp:419-429 | `erase(ind)` throws `index_out_of_bound` exactly when `ind >= size`. Otherwise the element at `ind` is removed and later ones move one place down. Capacity and buffer are kept, and the returned iterator is `ind` past `begin()`. |
| Vector.PushBack | vector/src/vector.hpp:433-439 | `push_back(v)` keeps the old elements as a prefix and makes `back()` equal `v`, with one more element. The capacity follows the growth rule and `size <= capacity` holds. |
| Vector.PopBack | vector/src/vector.hpp:444-450 | `pop_back` throws `container_is_empty` exactly on an empty vector. Otherwise the new sequence followed by the old `back()` is the old sequence. Capacity and buffer are kept. |
| Vector.Clear | vector/src/vector.hpp:373-378 | `clear` leaves no elements and keeps the capacity and the buffer. |
| Vector.Assign | vector/src/vector.hpp:261-276 | `operator=` on the same object changes nothing. Otherwise it copies the size, capacity and elements of `other` into a new buffer. |
| Vector.Copy | vector/src/vector.hpp:246-248 | The copy constructor has the elements and capacity of the original. |
| Vector.EraseUndoesInsert | vector/src/vector.hpp:392-429 | `erase(ind)` right after `insert(ind, v)` restores the element sequence. |
| Vector.InsertAtEndIsPushBack | vector/src/vector.hpp:392-439 | `insert(size, v)` gives the same vector as `push_back(v)`: same elements, capacity and buffer. |
| Vector.PopBackUndoesPushBack | vector/src/vector.hpp:433-450 | `pop_back` right after `push_back(v)` restores the element sequence. |
| Vector.PushBackKeepsTight | vector/src/vector.hpp:433-439 | Under `push_back` alone, an empty vector keeps capacity 0. A non-empty one keeps its capacity below twice its size. |
| Vector.ShiftUp | vector/src/vector.hpp:399-402 | The move loop of `insert` moves the elements from `ind` on one slot up. Slot `ind`, the slots below it and the slots past the new size are untouched. |
| Vector.ShiftInsert | vector/src/vector.hpp:399-403 | The move loop followed by the store of `v`, on a raw buffer, leaves exactly the sequence `Insert` specifies for the vector of the buffer's first `size` slots. Slots past the new size are untouched. |
| Vector.ShiftErase | vector/src/vector.hpp:423-427 | The move loop of `erase` leaves exactly the sequence `Erase` specifies in the first `size - 1` slots. The last old slot and the slots past it are untouched. |
| Vector.Relocate | vector/src/vector.hpp:460-466 | The copy loop of `reserve` puts the elements `Reserve` keeps at the front of the new buffer. The rest of the new buffer is untouched. |
| Vector.InsertFromSlotAsWritten | vector/src/vector.hpp:392-405 | `insert(ind, v[k])` as written, on a buffer with room, throws exactly when `ind > size` and otherwise places the other elements as `insert` should. When `k > ind` and the old elements `k - 1` and `k` differ, `at(ind)` is not the old `v[k]`. |
| Vector.ShiftInsertFromSlotAsWritten | vector/src/vector.hpp:399-403 | Running the move loop and only then reading `value` through the reference to slot `k` produces exactly the sequence `InsertFromSlotAsWritten` gives. |
| Vector.InsertFromSlotAsWrittenExample | vector/src/vector.hpp:392-405 | In `[10, 20, 30]` with capacity 4, `insert(0, v[1])` as written gives `[10, 10, 20, 30]`. Copying `v[1]` first gives `[20, 10, 20, 30]`. |
| Vector.InsertFromSlot | vector/src/vector.hpp:386-391 | `insert(ind, v[k])` with the element copied first, full buffer or not: `at(ind)` is the old `v[k]`, and removing it leaves the old sequence. |
| Vector.InsertFromSlotAgrees | vector/src/vector.hpp:399-403 | When `k < ind`, the loop neither reads nor writes slot `k`. The written and the corrected insert then agree. |

## Left out

- A throwing `Compare` is not modelled, because `Compare` is a pure total function here. So the `try`/`catch` in `push` (priority_queue.hpp:109-115) and in `merge(other)` is left out. The comparison at line 160 is still evaluated in `PriorityQueue.MergeFromAsWritten`, and its need for two roots is that member's precondition. Only its power to throw is left out. The class comment (lines 11-12) asks for the strong exception guarantee. The code cannot give it, since `merge` relinks nodes before later comparisons, but showing that needs a model of exceptions.
- Memory management is not modelled: `new`/`delete`, `malloc`/`free`, placement new, explicit destructor calls, `std::move` and the vector destructor (vector.hpp:252-257). `SkewHeap.Clear` and `PriorityQueue.Destroy` record only which values are deleted. Uninitialised and moved-from slots are ordinary values of `T` in the buffer methods.
- The amortised O(log n) cost of skew-heap merge is left out. It is a complexity claim, not a functional one.
- The iterator overloads of `insert` and `erase` (vector.hpp:383-385, 411-413) are left out. They reduce to the index versions through `pos - begin()`, and `Vector.Insert`/`Vector.Erase` give that distance for the returned iterator.
- `exceptions.hpp` is not part of this model. Only the three exception kinds are named. The iterator type-trait typedefs are left out because they have no behaviour.
- Integer widths are not modelled. `size_`, `capacity_` and the queue size are unbounded naturals. `idx_` is an unbounded integer. So the model leaves out a `size_t` wrap in `capacity_ * 2`, `int` overflow in iterator arithmetic, and the narrowing of `ind` to `int` in `iterator(data_, ind)`.
- Object identity is not modelled. `merge(other)` and `operator=` take an explicit `aliased` flag, and because queues are values, copy independence holds by construction.
- Vector.InsertFromSlotAsWritten: defined only when the buffer has room. On a full buffer, `reserve` (vector.hpp:458-466) frees the block `value` refers into before line 403 reads it. That is undefined behaviour, with no value to model; `ReadsFreedBlock` names the case.
- Vector.PushBack: takes `value` as a value. `v.push_back(v[k])` on a full buffer reads the freed block at line 437, as `insert` does; with room it reads slot `k` unchanged and agrees with `PushBack(v, v.elems[k], p)`.
- Vector.Insert: takes `value` as a value. A `value` that refers into the same vector is modelled separately by `InsertFromSlotAsWritten`.
- Vector.Insert: takes `ind` as a value. The source takes it by reference (vector.hpp:392) and reads it again in the loop test at line 400 and at line 404. An index that is itself an element of a `vector<size_t>` can therefore change mid-insert: `v = [9, 0, 1]` with capacity 4 and `v.insert(v[2], 42)` gives `[42, 9, 0, 1]` and an iterator at 0, where `Insert(v, 1, 42, p)` gives `[9, 42, 0, 1]` and index 1. Modelling that needs a model of references into the buffer.
- Vector.Erase: takes `ind` as a value. The source takes it by reference (vector.hpp:419) and reads it again at line 428, after the loop at 425-427 may have overwritten it. `v = [5, 1, 7]` and `v.erase(v[1])` returns an iterator at index 7, where `Erase(v, 1)` returns index 1.
- Post-increment and post-decrement return the unchanged input iterator. The moved iterator is `Plus(it, 1)` or `Minus(it, 1)`.
- The trivial vector accessors `empty`, `size` and `capacity` (vector.hpp:358-369) read fields of the `Vector` value and have no member of their own.

## Findings

| source | as written | input that shows it | evidently intended | confidence | as-written member | corrected member |
|---|---|---|---|---|---|---|
| priority_queue/src/priority_queue.hpp:160 | `merge(other)` evaluates `Compare()(root_->val, other.root_->val)` on two distinct queues before anything else | `a` empty and `b` holding one value, then `a.merge(b)` (or `b.merge(a)`): a null root is dereferenced | merging with an empty queue returns the other tree, as the private `merge` already does when either argument is null | high; not executed | PriorityQueue.MergeFromAsWritten, PriorityQueue.MergeWithEmptyReadsNull | PriorityQueue.MergeFrom |
| vector/src/vector.hpp:62-66 | `iterator::operator-(n)` does `p.idx_ += n` (`const_iterator` does the same at lines 165-169). The comment at lines 53-56 describes `operator+` as giving the iterator n elements on, and says only "as well as operator-". | an iterator at index 5 minus 1 is at index 6 | index 4. This is inferred from `operator-=` at lines 79-82, which subtracts, and from `-` being the inverse of `+` | high; not executed | Iterators.MinusAsWritten, Iterators.MinusAsWrittenExample | Iterators.Minus |
| vector/src/vector.hpp:392-405 | `insert(ind, value)` takes `value` by reference and reads it at line 403, after the loop at 400-402 has moved slots `ind..size-1` one place up | `v = [10, 20, 30]` with capacity 4, then `v.insert(0, v[1])` gives `[10, 10, 20, 30]` | `[20, 10, 20, 30]`. The class comment at lines 11-13 calls it "a data container like std::vector", whose `insert` behaves as if `value` were copied before any element moves | high; not executed | Vector.InsertFromSlotAsWritten, Vector.ShiftInsertFromSlotAsWritten, Vector.InsertFromSlotAsWrittenExample | Vector.InsertFromSlot |
