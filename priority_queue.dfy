/** A binary min-heap of (item, priority) entries kept in a DynamicArray, with the default
  * comparator std::less fixed as `<` on real priorities. */
module PriorityQueues {
  import opened Errors
  import opened DynamicArrays

  datatype Entry<T> = Entry(item: T, priority: real)

  /** (i - 1) / 2 as C++ computes it: truncation makes parent(0) == 0. */
  function Parent(i: nat): (p: nat)
    ensures i > 0 ==> p < i
    ensures i > 0 ==> i == 2 * p + 1 || i == 2 * p + 2
  {
    if i == 0 then 0 else (i - 1) / 2
  }

  function LeftChild(i: nat): (c: nat)
    ensures c > i && Parent(c) == i
  {
    2 * i + 1
  }

  function RightChild(i: nat): (c: nat)
    ensures c > i && Parent(c) == i && c == LeftChild(i) + 1
  {
    2 * i + 2
  }

  /** No entry has a smaller priority than its parent. */
  ghost predicate IsHeap<T>(s: seq<Entry<T>>) {
    forall i :: 0 < i < |s| ==> s[Parent(i)].priority <= s[i].priority
  }

  /** The heap order holds except between position k and its parent, and k's parent
    * is no larger than k's children (the state while sifting up). */
  ghost predicate HeapExceptUp<T>(s: seq<Entry<T>>, k: nat) {
    && (forall i :: 0 < i < |s| && i != k ==> s[Parent(i)].priority <= s[i].priority)
    && (0 < k < |s| ==> forall i :: 0 < i < |s| && Parent(i) == k ==> s[Parent(k)].priority <= s[i].priority)
  }

  /** The heap order holds except between position k and its children, and k's parent
    * is no larger than k's children (the state while sifting down). */
  ghost predicate HeapExceptDown<T>(s: seq<Entry<T>>, k: nat) {
    && (forall i :: 0 < i < |s| && Parent(i) != k ==> s[Parent(i)].priority <= s[i].priority)
    && (0 < k < |s| ==> forall i :: 0 < i < |s| && Parent(i) == k ==> s[Parent(k)].priority <= s[i].priority)
  }

  function Swap<T>(s: seq<T>, i: nat, j: nat): (r: seq<T>)
    requires i < |s| && j < |s|
    ensures |r| == |s| && r[i] == s[j] && r[j] == s[i]
    ensures forall k :: 0 <= k < |s| && k != i && k != j ==> r[k] == s[k]
    ensures multiset(r) == multiset(s)
  {
    s[i := s[j]][j := s[i]]
  }

  /** The root of a heap has the least priority of all its entries. */
  lemma {:induction false} RootIsMinimal<T>(s: seq<Entry<T>>, k: nat)
    requires IsHeap(s) && k < |s|
    ensures s[0].priority <= s[k].priority
    decreases k
  {
    if k > 0 {
      RootIsMinimal(s, Parent(k));
    }
  }

  /** The root's priority is at most that of every entry of a heap. */
  lemma RootIsLeast<T>(s: seq<Entry<T>>)
    requires IsHeap(s) && |s| > 0
    ensures forall e :: e in s ==> s[0].priority <= e.priority
  {
    forall e | e in s
      ensures s[0].priority <= e.priority
    {
      var k :| 0 <= k < |s| && s[k] == e;
      RootIsMinimal(s, k);
    }
  }

  /** With no Enqueue in between, a second Dequeue never returns a smaller priority than the first. */
  lemma SuccessiveDequeuesAreOrdered<T>(s: seq<Entry<T>>, t: seq<Entry<T>>)
    requires IsHeap(s) && |s| > 0
    requires IsHeap(t) && |t| > 0
    requires multiset(t) == multiset(s) - multiset{s[0]}
    ensures s[0].priority <= t[0].priority
  {
    assert t[0] in multiset(t);
    assert t[0] in multiset(s);
    var k :| 0 <= k < |s| && s[k] == t[0];
    RootIsMinimal(s, k);
  }

  /** One step of sifting up: swapping k with a larger parent moves the defect to the parent. */
  lemma SiftUpStep<T>(s: seq<Entry<T>>, k: nat)
    requires 0 < k < |s| && HeapExceptUp(s, k)
    requires s[k].priority < s[Parent(k)].priority
    ensures HeapExceptUp(Swap(s, k, Parent(k)), Parent(k))
  {
    var p := Parent(k);
    var t := Swap(s, k, p);
    forall i | 0 < i < |t| && i != p
      ensures t[Parent(i)].priority <= t[i].priority
    {
      if i == k {
      } else if Parent(i) == k {
      } else if Parent(i) == p {
        assert s[p].priority <= s[i].priority;
      } else {
        assert i != p && Parent(i) != p && Parent(i) != k;
      }
    }
    if 0 < p {
      forall i | 0 < i < |t| && Parent(i) == p
        ensures t[Parent(p)].priority <= t[i].priority
      {
        assert s[Parent(p)].priority <= s[p].priority;
        if i != k {
          assert s[p].priority <= s[i].priority;
        }
      }
    }
  }

  /** One step of sifting down: swapping k with its least child m moves the defect to m. */
  lemma SiftDownStep<T>(s: seq<Entry<T>>, k: nat, m: nat)
    requires k < |s| && HeapExceptDown(s, k)
    requires m < |s| && Parent(m) == k && m != k
    requires s[m].priority < s[k].priority
    requires forall i :: 0 < i < |s| && Parent(i) == k ==> s[m].priority <= s[i].priority
    ensures HeapExceptDown(Swap(s, k, m), m)
  {
    var t := Swap(s, k, m);
    forall i | 0 < i < |t| && Parent(i) != m
      ensures t[Parent(i)].priority <= t[i].priority
    {
      if i == k {
        assert s[Parent(k)].priority <= s[m].priority;
      } else if i == m {
      } else if Parent(i) == k {
      } else {
        assert i != k && i != m && Parent(i) != k && Parent(i) != m;
      }
    }
    forall i | 0 < i < |t| && Parent(i) == m
      ensures t[Parent(m)].priority <= t[i].priority
    {
      assert i != k && i != m;
    }
  }

  /** Appending to a heap leaves it a heap except at the new last position. */
  lemma AppendExceptUp<T>(s: seq<Entry<T>>, x: Entry<T>)
    requires IsHeap(s)
    ensures HeapExceptUp(s + [x], |s|)
  {
    var t := s + [x];
    forall i | 0 < i < |t| && i != |s|
      ensures t[Parent(i)].priority <= t[i].priority
    {
      assert t[i] == s[i] && t[Parent(i)] == s[Parent(i)];
    }
  }

  /** Moving the last entry to the root and dropping the last slot leaves a heap except at the root. */
  lemma RemoveRootExceptDown<T>(s: seq<Entry<T>>)
    requires IsHeap(s) && |s| > 0
    ensures HeapExceptDown(s[0 := s[|s| - 1]][..|s| - 1], 0)
    ensures multiset(s[0 := s[|s| - 1]][..|s| - 1]) == multiset(s) - multiset{s[0]}
  {
    var n := |s|;
    var t := s[0 := s[n - 1]];
    var u := t[..n - 1];
    forall i | 0 < i < |u| && Parent(i) != 0
      ensures u[Parent(i)].priority <= u[i].priority
    {
      assert u[i] == s[i] && u[Parent(i)] == s[Parent(i)];
    }
    if n == 1 {
      assert u == [];
    } else {
      assert s == [s[0]] + s[1..n - 1] + [s[n - 1]];
      assert u == [s[n - 1]] + s[1..n - 1];
      calc {
        multiset(u);
        multiset([s[n - 1]]) + multiset(s[1..n - 1]);
        multiset(s) - multiset{s[0]};
      }
    }
  }

  /** The children of k are exactly positions 2k+1 and 2k+2, so a bound on both bounds all of them. */
  lemma LeastChildBound<T>(s: seq<Entry<T>>, k: nat, m: nat)
    requires m < |s|
    requires LeftChild(k) < |s| ==> s[m].priority <= s[LeftChild(k)].priority
    requires RightChild(k) < |s| ==> s[m].priority <= s[RightChild(k)].priority
    ensures forall i :: 0 < i < |s| && Parent(i) == k ==> s[m].priority <= s[i].priority
  {
    forall i | 0 < i < |s| && Parent(i) == k
      ensures s[m].priority <= s[i].priority
    {
      assert i == LeftChild(k) || i == RightChild(k);
    }
  }

  /** Sifting down stops when position k is no larger than its children: the heap is whole. */
  lemma SiftDownDone<T>(s: seq<Entry<T>>, k: nat)
    requires k < |s| && HeapExceptDown(s, k)
    requires forall i :: 0 < i < |s| && Parent(i) == k ==> s[k].priority <= s[i].priority
    ensures IsHeap(s)
  {
  }

  class PriorityQueue<T(0)> {
    var heap: DynamicArray<Entry<T>>
    ghost var Repr: set<object>

    ghost predicate Valid()
      reads this, Repr
    {
      && this in Repr && heap in Repr && heap.Repr <= Repr && this !in heap.Repr
      && Repr == {this} + heap.Repr
      && heap.Valid() && IsHeap(heap.Elements())
    }

    /** The entries in heap order. */
    ghost function Entries(): seq<Entry<T>>
      reads this, Repr
      requires Valid()
    {
      heap.Elements()
    }

    /** A new queue is empty. */
    constructor ()
      ensures Valid() && fresh(Repr) && Entries() == []
    {
      heap := new DynamicArray();
      new;
      Repr := {this} + heap.Repr;
    }

    /** Exchanges the entries at positions i and j (the temp/Set/Set sequence of both sifts). */
    method SwapEntries(i: nat, j: nat)
      requires heap.Valid() && i < heap.size && j < heap.size
      modifies heap.data
      ensures heap.Valid() && heap.size == old(heap.size)
      ensures heap.Elements() == Swap(old(heap.Elements()), i, j)
    {
      var temp := heap.Get(i);
      var other := heap.Get(j);
      var _ := heap.Set(i, other.value);
      var _ := heap.Set(j, temp.value);
    }

    /** Swaps position index with its parent while the parent's priority is larger. */
    method HeapifyUp(index: nat)
      requires heap.Valid() && index < heap.size
      requires HeapExceptUp(heap.Elements(), index)
      modifies heap.data
      ensures heap.Valid() && heap.size == old(heap.size)
      ensures IsHeap(heap.Elements())
      ensures multiset(heap.Elements()) == multiset(old(heap.Elements()))
    {
      var i: nat := index;
      while i > 0
        invariant heap.Valid() && i < heap.size == old(heap.size)
        invariant HeapExceptUp(heap.Elements(), i)
        invariant multiset(heap.Elements()) == multiset(old(heap.Elements()))
      {
        var current := heap.Get(i);
        var parent := heap.Get(Parent(i));
        if !(current.value.priority < parent.value.priority) {
          break;
        }
        SiftUpStep(heap.Elements(), i);
        SwapEntries(i, Parent(i));
        i := Parent(i);
      }
    }

    /** Position index or the child of it with the least priority; index itself on a tie. */
    method LeastOfFamily(index: nat) returns (minIndex: nat)
      requires heap.Valid() && index < heap.size
      ensures var s := heap.Elements();
        && minIndex < |s| && s[minIndex].priority <= s[index].priority
        && (minIndex != index ==> Parent(minIndex) == index && s[minIndex].priority < s[index].priority)
        && (LeftChild(index) < |s| ==> s[minIndex].priority <= s[LeftChild(index)].priority)
        && (RightChild(index) < |s| ==> s[minIndex].priority <= s[RightChild(index)].priority)
    {
      ghost var s := heap.Elements();
      minIndex := index;
      var left := LeftChild(index);
      var right := RightChild(index);
      if left < heap.size {
        var l := heap.Get(left);
        var m := heap.Get(minIndex);
        if l.value.priority < m.value.priority {
          minIndex := left;
        }
      }
      assert minIndex == index || (minIndex == left && s[left].priority < s[index].priority);
      assert left < |s| ==> s[minIndex].priority <= s[left].priority;
      if right < heap.size {
        var r := heap.Get(right);
        var m := heap.Get(minIndex);
        if r.value.priority < m.value.priority {
          minIndex := right;
        }
      }
    }

    /** Swaps position index with its least child while that child's priority is smaller. */
    method HeapifyDown(index: nat)
      requires heap.Valid() && index < heap.size
      requires HeapExceptDown(heap.Elements(), index)
      modifies heap.data
      ensures heap.Valid() && heap.size == old(heap.size)
      ensures IsHeap(heap.Elements())
      ensures multiset(heap.Elements()) == multiset(old(heap.Elements()))
      decreases heap.size - index
    {
      ghost var s := heap.Elements();
      var minIndex := LeastOfFamily(index);
      LeastChildBound(s, index, minIndex);
      if index != minIndex {
        SiftDownStep(s, index, minIndex);
        SwapEntries(index, minIndex);
        HeapifyDown(minIndex);
      } else {
        SiftDownDone(s, index);
      }
    }

    /** Adds (item, priority): one more entry, and exactly that one. */
    method Enqueue(item: T, priority: real)
      requires Valid()
      modifies Repr
      ensures Valid() && fresh(Repr - old(Repr))
      ensures |Entries()| == |old(Entries())| + 1
      ensures multiset(Entries()) == multiset(old(Entries())) + multiset{Entry(item, priority)}
    {
      AppendExceptUp(heap.Elements(), Entry(item, priority));
      heap.Append(Entry(item, priority));
      HeapifyUp(heap.size - 1);
      Repr := {this} + heap.Repr;
    }

    /** Removes and returns the root item, whose priority is the least; EmptyQueue when empty. */
    method Dequeue() returns (r: Result<T>)
      requires Valid()
      modifies Repr
      ensures Valid() && fresh(Repr - old(Repr))
      ensures old(Entries()) == [] ==> r == Err(EmptyQueue) && Entries() == []
      ensures old(Entries()) != [] ==>
        && r == Ok(old(Entries())[0].item)
        && (forall e :: e in old(Entries()) ==> old(Entries())[0].priority <= e.priority)
        && |Entries()| == |old(Entries())| - 1
        && multiset(Entries()) == multiset(old(Entries())) - multiset{old(Entries())[0]}
    {
      if heap.size == 0 {
        return Err(EmptyQueue);
      }
      RootIsLeast(heap.Elements());
      var root := TakeRoot();
      return Ok(root.item);
    }

    /** Moves the last entry to the root, drops the last slot and sifts the new root down. */
    method TakeRoot() returns (root: Entry<T>)
      requires heap.Valid() && IsHeap(heap.Elements()) && heap.size > 0
      modifies heap, heap.data
      ensures heap.Valid() && heap.data == old(heap.data)
      ensures root == old(heap.Elements())[0]
      ensures IsHeap(heap.Elements()) && |heap.Elements()| == |old(heap.Elements())| - 1
      ensures multiset(heap.Elements()) == multiset(old(heap.Elements())) - multiset{root}
    {
      ghost var s := heap.Elements();
      RemoveRootExceptDown(s);
      var first := heap.Get(0);
      root := first.value;
      var last := heap.Get(heap.size - 1);
      var _ := heap.Set(0, last.value);
      ghost var t := heap.Elements();
      assert t == s[0 := s[|s| - 1]];
      var _ := heap.RemoveAt(heap.size - 1);
      assert t[|t|..] == [];
      assert heap.Elements() == t[..|t| - 1];
      if heap.size != 0 {
        HeapifyDown(0);
      }
    }

    /** The root item, without removing it; EmptyQueue when empty. */
    method Peek() returns (r: Result<T>)
      requires Valid()
      ensures Entries() == [] ==> r == Err(EmptyQueue)
      ensures Entries() != [] ==> r == Ok(Entries()[0].item)
      ensures r.Ok? ==> exists e :: e in Entries() && e.item == r.value
    {
      if heap.size == 0 {
        return Err(EmptyQueue);
      }
      var root := heap.Get(0);
      return Ok(root.value.item);
    }

    /** The least priority in the queue; EmptyQueue when empty. */
    method PeekPriority() returns (r: Result<real>)
      requires Valid()
      ensures Entries() == [] ==> r == Err(EmptyQueue)
      ensures Entries() != [] ==> r == Ok(Entries()[0].priority)
      ensures r.Ok? ==> forall e :: e in Entries() ==> r.value <= e.priority
    {
      if heap.size == 0 {
        return Err(EmptyQueue);
      }
      ghost var s := heap.Elements();
      RootIsLeast(s);
      var root := heap.Get(0);
      return Ok(root.value.priority);
    }

    method IsEmpty() returns (b: bool)
      requires Valid()
      ensures b <==> Entries() == []
    {
      return heap.size == 0;
    }

    method GetSize() returns (n: int)
      requires Valid()
      ensures n == |Entries()|
    {
      n := heap.GetSize();
    }

    method Clear()
      requires Valid()
      modifies Repr
      ensures Valid() && Repr == old(Repr) && Entries() == []
    {
      heap.Clear();
    }
  }
}
