/** `priority_queue<T, Compare>`: a root pointer and a size counter over a skew heap.
    The queue is a value, so a copy can never observe changes made to another
    queue; object identity, which `merge(other)` and `operator=` test for, is an
    explicit `aliased` flag. */
module PriorityQueue {
  import opened Errors
  import opened Ordering
  import opened SkewHeap

  /** `root_` and `size_`. */
  datatype Queue<T> = Queue(root: Tree<T>, size: nat)

  /** The class invariant: `size_` counts the nodes and the tree is heap ordered. */
  ghost predicate Valid<T(!new)>(less: (T, T) -> bool, q: Queue<T>) {
    q.size == NodeCount(q.root) && HeapOrdered(less, q.root)
  }

  /** The values held by the queue, with multiplicity. */
  ghost function Contents<T>(q: Queue<T>): multiset<T> {
    Elems(q.root)
  }

  /** The default constructor: no values, size 0, and `top()` throws. */
  function EmptyQueue<T>(): (r: Queue<T>)
    ensures r.size == NodeCount(r.root) == 0
    ensures Contents(r) == multiset{}
    ensures Top(r) == Err(ContainerIsEmpty)
  {
    Queue(Nil, 0)
  }

  /** `top()`: throws `container_is_empty` exactly when the size is zero, and
      otherwise yields one of the stored values (the root's). */
  function Top<T>(q: Queue<T>): (r: Result<T>)
    requires q.size == NodeCount(q.root)
    ensures r.Err? <==> q.size == 0
    ensures r.Err? ==> r.error == ContainerIsEmpty
    ensures r.Ok? ==> r.value in Contents(q)
  {
    if q.size == 0 then Err(ContainerIsEmpty) else Ok(q.root.val)
  }

  /** No value in a valid queue outranks what `top()` returns. */
  lemma TopIsExtremal<T(!new)>(less: (T, T) -> bool, q: Queue<T>)
    requires Valid(less, q) && StrictWeakOrder(less)
    ensures Top(q).Ok? ==> forall e :: e in Contents(q) ==> !less(Top(q).value, e)
  {
    if q.size != 0 {
      RootIsExtremal(less, q.root);
    }
  }

  /** `size()`: the number of values held. */
  function Size<T>(q: Queue<T>): (n: nat)
    requires q.size == NodeCount(q.root)
    ensures n == |Contents(q)|
  {
    NodeCountIsCardinality(q.root);
    q.size
  }

  /** `empty()`: true exactly when no value is held. */
  function Empty<T>(q: Queue<T>): (b: bool)
    requires q.size == NodeCount(q.root)
    ensures b <==> Contents(q) == multiset{}
  {
    NodeCountIsCardinality(q.root);
    q.size == 0
  }

  /** `push(e)`: adds exactly one copy of `e`, grows the size by one and keeps the
      heap order. */
  function Push<T(!new)>(less: (T, T) -> bool, q: Queue<T>, e: T): (r: Queue<T>)
    requires Valid(less, q) && Asymmetric(less)
    ensures Valid(less, r)
    ensures r.size == q.size + 1
    ensures Contents(r) == Contents(q) + multiset{e}
  {
    var single := Node(e, Nil, Nil);
    assert Elems(single) == multiset{e};
    assert NodeCount(single) == 1 + NodeCount<T>(Nil) + NodeCount<T>(Nil) == 1;
    assert HeapOrdered(less, single);
    MergePreservesHeapOrder(less, q.root, single);
    MergeKeepsElems(less, q.root, single);
    Queue(Merge(less, q.root, single), q.size + 1)
  }

  /** `pop()`: throws `container_is_empty` on an empty queue; otherwise removes one
      copy of the top value, shrinks the size by one and keeps the heap order. */
  function Pop<T(!new)>(less: (T, T) -> bool, q: Queue<T>): (r: Result<Queue<T>>)
    requires Valid(less, q) && Asymmetric(less)
    ensures r.Err? <==> q.size == 0
    ensures r.Err? ==> r.error == ContainerIsEmpty
    ensures r.Ok? ==> && Valid(less, r.value)
                      && r.value.size == q.size - 1
                      && Contents(r.value) + multiset{Top(q).value} == Contents(q)
  {
    if q.size == 0 then Err(ContainerIsEmpty)
    else
      MergePreservesHeapOrder(less, q.root.ls, q.root.rs);
      MergeKeepsElems(less, q.root.ls, q.root.rs);
      Ok(Queue(Merge(less, q.root.ls, q.root.rs), q.size - 1))
  }

  /** `merge(other)` as written. On distinct queues it first evaluates
      `Compare(root_->val, other.root_->val)` and discards the answer, so both
      roots must be present; then it merges the trees, adds the sizes and empties
      `other`. On the same queue it does nothing. */
  function MergeFromAsWritten<T(!new)>(less: (T, T) -> bool, q: Queue<T>, other: Queue<T>, aliased: bool)
    : (r: (Queue<T>, Queue<T>))
    requires aliased ==> q == other
    requires Valid(less, q) && Valid(less, other) && Asymmetric(less)
    requires !ReadsNullRoot(q, other, aliased)
    ensures aliased ==> r == (q, other)
    ensures !aliased ==> && Valid(less, r.0)
                         && r.0.size == q.size + other.size
                         && Contents(r.0) == Contents(q) + Contents(other)
                         && r.1 == EmptyQueue()
  {
    if aliased then (q, other)
    else
      // line 160: the comparison is evaluated and its answer thrown away
      var discarded := less(q.root.val, other.root.val);
      MergePreservesHeapOrder(less, q.root, other.root);
      MergeKeepsElems(less, q.root, other.root);
      (Queue(Merge(less, q.root, other.root), q.size + other.size), EmptyQueue())
  }

  /** True when `merge(other)` as written reads a value through a null root. */
  predicate ReadsNullRoot<T>(q: Queue<T>, other: Queue<T>, aliased: bool) {
    !aliased && (q.root.Nil? || other.root.Nil?)
  }

  /** Merging into an empty queue, or merging an empty queue in, is outside what
      the code as written can do, although the tree merge handles it. */
  lemma MergeWithEmptyReadsNull()
    ensures ReadsNullRoot(EmptyQueue<int>(), Queue(Node(7, Nil, Nil), 1), false)
    ensures ReadsNullRoot(Queue(Node(7, Nil, Nil), 1), EmptyQueue<int>(), false)
  {
  }

  /** `merge(other)` without the discarded comparison: the same result wherever the
      code as written is defined, and also defined when either queue is empty. */
  function MergeFrom<T(!new)>(less: (T, T) -> bool, q: Queue<T>, other: Queue<T>, aliased: bool)
    : (r: (Queue<T>, Queue<T>))
    requires aliased ==> q == other
    requires Valid(less, q) && Valid(less, other) && Asymmetric(less)
    ensures aliased ==> r == (q, other)
    ensures !aliased ==> && Valid(less, r.0)
                         && r.0.size == q.size + other.size
                         && Contents(r.0) == Contents(q) + Contents(other)
                         && r.1 == EmptyQueue()
    ensures !aliased && q.size == 0 ==> r.0 == other
    ensures !aliased && other.size == 0 ==> r.0 == q
  {
    if aliased then (q, other)
    else
      MergePreservesHeapOrder(less, q.root, other.root);
      MergeKeepsElems(less, q.root, other.root);
      (Queue(Merge(less, q.root, other.root), q.size + other.size), EmptyQueue())
  }

  /** Wherever `merge(other)` as written is defined, the corrected merge agrees. */
  lemma MergeFromAgrees<T(!new)>(less: (T, T) -> bool, q: Queue<T>, other: Queue<T>, aliased: bool)
    requires aliased ==> q == other
    requires Valid(less, q) && Valid(less, other) && Asymmetric(less)
    requires !ReadsNullRoot(q, other, aliased)
    ensures MergeFromAsWritten(less, q, other, aliased) == MergeFrom(less, q, other, aliased)
  {
  }

  /** The copy constructor: a deep clone that equals the original. */
  function Copy<T>(other: Queue<T>): (r: Queue<T>)
    ensures r == other
  {
    Queue(Clone(other.root), other.size)
  }

  /** `operator=`: self-assignment changes nothing; otherwise the old tree is
      destroyed and a clone of `other` takes its place. */
  function Assign<T>(q: Queue<T>, other: Queue<T>, aliased: bool): (r: Queue<T>)
    requires aliased ==> q == other
    ensures r == other
    ensures aliased ==> r == q
  {
    if aliased then q else Queue(Clone(other.root), other.size)
  }

  /** The destructor: the values of the deleted nodes, each node exactly once. */
  function Destroy<T>(q: Queue<T>): (freed: seq<T>)
    requires q.size == NodeCount(q.root)
    ensures |freed| == q.size
    ensures multiset(freed) == Contents(q)
  {
    Clear(q.root)
  }

  /** A non-increasing sequence: nothing outranks a value that comes before it. */
  ghost predicate NonIncreasing<T(!new)>(less: (T, T) -> bool, s: seq<T>) {
    forall i, j :: 0 <= i < j < |s| ==> !less(s[i], s[j])
  }

  /** Putting a value that no element of `tail` outranks in front of a
      non-increasing `tail` keeps it non-increasing. */
  lemma ConsNonIncreasing<T(!new)>(less: (T, T) -> bool, v: T, tail: seq<T>, bound: multiset<T>)
    requires forall e :: e in bound ==> !less(v, e)
    requires multiset(tail) <= bound
    requires NonIncreasing(less, tail)
    ensures NonIncreasing(less, [v] + tail)
  {
  }

  /** One step of `Drain`: the top value followed by the drained remainder. */
  lemma DrainStep<T(!new)>(less: (T, T) -> bool, q: Queue<T>, rest: Queue<T>, tail: seq<T>)
    requires Valid(less, q) && StrictWeakOrder(less) && q.size > 0
    requires Contents(rest) + multiset{Top(q).value} == Contents(q)
    requires multiset(tail) == Contents(rest) && NonIncreasing(less, tail)
    ensures multiset([Top(q).value] + tail) == Contents(q)
    ensures NonIncreasing(less, [Top(q).value] + tail)
  {
    var v := Top(q).value;
    TopIsExtremal(less, q);
    ConsNonIncreasing(less, v, tail, Contents(q));
    assert multiset([v] + tail) == multiset{v} + multiset(tail);
  }

  /** Repeated `top()` and `pop()` until `container_is_empty`: the values come out
      each exactly once, and none outranks a value that came out before it. */
  function Drain<T(!new)>(less: (T, T) -> bool, q: Queue<T>): (out: seq<T>)
    requires Valid(less, q) && StrictWeakOrder(less)
    ensures |out| == q.size
    ensures multiset(out) == Contents(q)
    ensures NonIncreasing(less, out)
    decreases q.size
  {
    if q.size == 0 then
      NodeCountIsCardinality(q.root);
      []
    else
      var rest := Pop(less, q).value;
      var tail := Drain(less, rest);
      DrainStep(less, q, rest, tail);
      [Top(q).value] + tail
  }
}
