/** The node tree behind `priority_queue`: a skew heap. Each node holds one value
    and a left (`ls`) and right (`rs`) child; `merge` relinks two trees along their
    right spines and swaps the children of every node it passes. */
module SkewHeap {
  import opened Ordering

  datatype Tree<T> = Nil | Node(val: T, ls: Tree<T>, rs: Tree<T>)

  /** Number of nodes reachable from `t`. */
  function NodeCount<T>(t: Tree<T>): nat {
    match t
    case Nil => 0
    case Node(_, l, r) => 1 + NodeCount(l) + NodeCount(r)
  }

  /** The values stored in `t`, with multiplicity. */
  ghost function Elems<T>(t: Tree<T>): multiset<T> {
    match t
    case Nil => multiset{}
    case Node(v, l, r) => multiset{v} + Elems(l) + Elems(r)
  }

  /** Heap order: no node ranks below either of its children. */
  ghost predicate HeapOrdered<T(!new)>(less: (T, T) -> bool, t: Tree<T>) {
    match t
    case Nil => true
    case Node(v, l, r) =>
      && (l.Node? ==> !less(v, l.val))
      && (r.Node? ==> !less(v, r.val))
      && HeapOrdered(less, l)
      && HeapOrdered(less, r)
  }

  /** The node count of a tree is the number of values it holds. */
  lemma {:induction false} NodeCountIsCardinality<T>(t: Tree<T>)
    ensures NodeCount(t) == |Elems(t)|
  {
    match t
    case Nil =>
    case Node(v, l, r) =>
      NodeCountIsCardinality(l);
      NodeCountIsCardinality(r);
  }

  /** Reassociating the multisets of a winner, its children and the loser. */
  lemma MultisetShuffle<T>(v: multiset<T>, l: multiset<T>, r: multiset<T>, o: multiset<T>)
    ensures v + (r + o) + l == (v + l + r) + o
    ensures v + (r + o) + l == o + (v + l + r)
  {
  }

  /** The private recursive `merge(x, y)`. The winner is `y` when `less(x.val, y.val)`
      and `x` otherwise; its old left child moves to the right slot and the left
      slot receives the merge of its old right child with the loser. */
  function Merge<T(!new)>(less: (T, T) -> bool, x: Tree<T>, y: Tree<T>): (r: Tree<T>)
    ensures NodeCount(r) == NodeCount(x) + NodeCount(y)
    ensures x.Nil? ==> r == y
    ensures y.Nil? ==> r == x
    ensures x.Node? && y.Node? ==>
              r.Node? && r.val == (if less(x.val, y.val) then y.val else x.val)
    decreases NodeCount(x) + NodeCount(y)
  {
    if x.Nil? then y
    else if y.Nil? then x
    else if less(x.val, y.val) then Node(y.val, Merge(less, y.rs, x), y.ls)
    else Node(x.val, Merge(less, x.rs, y), x.ls)
  }

  /** No node is lost or duplicated: the merged tree holds exactly the multiset
      union of the two inputs. */
  lemma {:induction false} MergeKeepsElems<T(!new)>(less: (T, T) -> bool, x: Tree<T>, y: Tree<T>)
    ensures Elems(Merge(less, x, y)) == Elems(x) + Elems(y)
    decreases NodeCount(x) + NodeCount(y)
  {
    if x.Nil? || y.Nil? {
    } else if less(x.val, y.val) {
      var m := Merge(less, y.rs, x);
      MergeKeepsElems(less, y.rs, x);
      assert Merge(less, x, y) == Node(y.val, m, y.ls);
      assert Elems(Node(y.val, m, y.ls)) == multiset{y.val} + Elems(m) + Elems(y.ls);
      assert Elems(y) == multiset{y.val} + Elems(y.ls) + Elems(y.rs);
      MultisetShuffle(multiset{y.val}, Elems(y.ls), Elems(y.rs), Elems(x));
    } else {
      var m := Merge(less, x.rs, y);
      MergeKeepsElems(less, x.rs, y);
      assert Merge(less, x, y) == Node(x.val, m, x.ls);
      assert Elems(Node(x.val, m, x.ls)) == multiset{x.val} + Elems(m) + Elems(x.ls);
      assert Elems(x) == multiset{x.val} + Elems(x.ls) + Elems(x.rs);
      MultisetShuffle(multiset{x.val}, Elems(x.ls), Elems(x.rs), Elems(y));
    }
  }

  /** Merging two heap-ordered trees gives a heap-ordered tree; only asymmetry of
      `less` is needed, to know that the winner does not rank below the loser. */
  lemma {:induction false} MergePreservesHeapOrder<T(!new)>(less: (T, T) -> bool, x: Tree<T>, y: Tree<T>)
    requires Asymmetric(less)
    requires HeapOrdered(less, x) && HeapOrdered(less, y)
    ensures HeapOrdered(less, Merge(less, x, y))
    decreases NodeCount(x) + NodeCount(y)
  {
    if x.Nil? || y.Nil? {
    } else if less(x.val, y.val) {
      MergePreservesHeapOrder(less, y.rs, x);
      var m := Merge(less, y.rs, x);
      assert !less(y.val, m.val) by {
        assert !less(y.val, x.val);
        if y.rs.Nil? { assert m == x; } else { assert m.val == y.rs.val || m.val == x.val; }
      }
      var r := Node(y.val, m, y.ls);
      assert HeapOrdered(less, r);
      assert Merge(less, x, y) == r;
    } else {
      MergePreservesHeapOrder(less, x.rs, y);
      var m := Merge(less, x.rs, y);
      assert !less(x.val, m.val) by {
        if x.rs.Nil? { assert m == y; } else { assert m.val == x.rs.val || m.val == y.val; }
      }
      var r := Node(x.val, m, x.ls);
      assert HeapOrdered(less, r);
      assert Merge(less, x, y) == r;
    }
  }

  /** In a heap-ordered tree no stored value outranks the root. */
  lemma {:induction false} RootIsExtremal<T(!new)>(less: (T, T) -> bool, t: Tree<T>)
    requires StrictWeakOrder(less)
    requires HeapOrdered(less, t) && t.Node?
    ensures forall e :: e in Elems(t) ==> !less(t.val, e)
  {
    var v, l, r := t.val, t.ls, t.rs;
    if l.Node? {
      RootIsExtremal(less, l);
    }
    if r.Node? {
      RootIsExtremal(less, r);
    }
    forall e | e in Elems(t)
      ensures !less(v, e)
    {
      if e in Elems(l) {
        assert !less(v, l.val) && !less(l.val, e);
      } else if e in Elems(r) {
        assert !less(v, r.val) && !less(r.val, e);
      } else {
        assert e == v;
      }
    }
  }

  /** `clonenode`: a pre-order deep copy, structurally equal to its input. */
  function Clone<T>(t: Tree<T>): (r: Tree<T>)
    ensures r == t
  {
    match t
    case Nil => Nil
    case Node(v, l, r) => Node(v, Clone(l), Clone(r))
  }

  /** `clear(x)`: the values of the nodes in the order they are deleted (post-order).
      Every node is deleted exactly once, and the root last. */
  function Clear<T>(t: Tree<T>): (freed: seq<T>)
    ensures multiset(freed) == Elems(t)
    ensures |freed| == NodeCount(t)
    ensures t.Node? ==> freed[|freed| - 1] == t.val
  {
    match t
    case Nil => []
    case Node(v, l, r) => Clear(l) + Clear(r) + [v]
  }
}
