/** The array-backed min-heap of nodes keyed by their minimum cost, with
    removal of an arbitrary entry. Entry i has children 2i+1 and 2i+2. */
module Heaps {
  import opened Nodes
  import opened Sequences

  /** Index of the parent slot of slot i > 0. */
  function Parent(i: nat): nat
    requires i > 0
  {
    (i - 1) / 2
  }

  /** Every held entry has a key. */
  ghost predicate Keyed(s: seq<Node>) {
    forall e :: e in s ==> Reached(e)
  }

  /** The min-heap property: no entry is smaller than its parent. */
  ghost predicate HeapOrder(s: seq<Node>)
    requires Keyed(s)
  {
    forall i :: 0 < i < |s| ==> Key(s[Parent(i)]) <= Key(s[i])
  }

  /** Heap order holds on every parent/child edge that does not touch slot k,
      and the parent of k is no larger than the children of k. This is what
      holds after one slot of a heap has been overwritten. */
  ghost predicate HeapExcept(s: seq<Node>, k: nat)
    requires Keyed(s)
  {
    && (forall i :: 0 < i < |s| && i != k && Parent(i) != k ==> Key(s[Parent(i)]) <= Key(s[i]))
    && (forall i :: 0 < i < |s| && Parent(i) == k && k > 0 ==> Key(s[Parent(k)]) <= Key(s[i]))
  }

  /** True when the entry at k is smaller than its parent (the sift-up case). */
  ghost predicate SmallerThanParent(s: seq<Node>, k: nat)
    requires Keyed(s) && k < |s|
  {
    k > 0 && Key(s[k]) < Key(s[Parent(k)])
  }

  function Swapped(s: seq<Node>, i: nat, j: nat): seq<Node>
    requires i < |s| && j < |s|
  {
    s[i := s[j]][j := s[i]]
  }

  /** The root of a heap holds a smallest key. */
  lemma {:induction false} RootIsMinimum(s: seq<Node>, i: nat)
    requires Keyed(s) && HeapOrder(s) && i < |s|
    ensures Key(s[0]) <= Key(s[i])
    decreases i
  {
    if i > 0 {
      RootIsMinimum(s, Parent(i));
    }
  }

  /** Overwriting slot k with the last entry and dropping the last slot
      removes exactly the entry that was at k. */
  lemma MoveLastInto(s: seq<Node>, k: nat)
    requires k < |s|
    ensures multiset(s[k := s[|s| - 1]][..|s| - 1]) == multiset(s) - multiset{s[k]}
  {
    var n := |s|;
    assert s == s[..n - 1] + [s[n - 1]];
    if k < n - 1 {
      assert s[k := s[n - 1]][..n - 1] == s[..n - 1][k := s[n - 1]];
    } else {
      assert s[k := s[n - 1]][..n - 1] == s[..n - 1];
    }
  }

  /** A heap with a slot overwritten by its last entry (and the last slot
      dropped) is a heap except at that slot. */
  lemma {:induction false} MoveLastKeepsOrder(s: seq<Node>, k: nat)
    requires Keyed(s) && HeapOrder(s) && k < |s| - 1
    ensures Keyed(s[k := s[|s| - 1]][..|s| - 1])
    ensures HeapExcept(s[k := s[|s| - 1]][..|s| - 1], k)
  {
    var t := s[k := s[|s| - 1]][..|s| - 1];
    forall i | 0 < i < |t| && Parent(i) == k && k > 0
      ensures Key(t[Parent(k)]) <= Key(t[i])
    {
      assert Key(s[Parent(k)]) <= Key(s[k]);
      assert Key(s[k]) <= Key(s[i]);
    }
  }

  /** One sift-up step moves the exception from k to its parent. */
  lemma {:induction false} SiftUpStep(s: seq<Node>, k: nat)
    requires Keyed(s) && k < |s| && HeapExcept(s, k) && SmallerThanParent(s, k)
    ensures Keyed(Swapped(s, k, Parent(k)))
    ensures HeapExcept(Swapped(s, k, Parent(k)), Parent(k))
  {
    var p := Parent(k);
    var t := Swapped(s, k, p);
    SwapKeepsEntries(s, k, p);
    forall i | 0 < i < |t| && i != p && Parent(i) != p
      ensures Key(t[Parent(i)]) <= Key(t[i])
    {
      if Parent(i) == k {
        assert t[Parent(i)] == s[p];
      }
    }
    forall i | 0 < i < |t| && Parent(i) == p && p > 0
      ensures Key(t[Parent(p)]) <= Key(t[i])
    {
      assert Key(s[Parent(p)]) <= Key(s[p]);
      if i != k {
        assert Key(s[p]) <= Key(s[i]);
      }
    }
  }

  /** Swapping two slots keeps the entries, so keeps every entry keyed. */
  lemma SwapKeepsEntries(s: seq<Node>, i: nat, j: nat)
    requires Keyed(s) && i < |s| && j < |s|
    ensures multiset(Swapped(s, i, j)) == multiset(s)
    ensures Keyed(Swapped(s, i, j))
  {
    var t := Swapped(s, i, j);
    assert multiset(t) == multiset(s);
    forall e | e in t ensures Reached(e) {
      assert e in multiset(t);
    }
  }

  /** One sift-down step, swapping k with its smaller child c, moves the
      exception from k to c. */
  lemma {:induction false} SiftDownStep(s: seq<Node>, k: nat, c: nat)
    requires Keyed(s) && k < c < |s| && HeapExcept(s, k) && !SmallerThanParent(s, k)
    requires c == 2 * k + 1 || c == 2 * k + 2
    requires Key(s[c]) < Key(s[k])
    requires 2 * k + 1 < |s| ==> Key(s[c]) <= Key(s[2 * k + 1])
    requires 2 * k + 2 < |s| ==> Key(s[c]) <= Key(s[2 * k + 2])
    ensures Keyed(Swapped(s, k, c))
    ensures HeapExcept(Swapped(s, k, c), c)
    ensures !SmallerThanParent(Swapped(s, k, c), c)
  {
    SwapKeepsEntries(s, k, c);
    SiftDownAway(s, k, c);
    SiftDownBelow(s, k, c);
  }

  /** After the sift-down swap, every edge away from c is ordered. */
  lemma SiftDownAway(s: seq<Node>, k: nat, c: nat)
    requires Keyed(s) && k < c < |s| && HeapExcept(s, k) && !SmallerThanParent(s, k)
    requires c == 2 * k + 1 || c == 2 * k + 2
    requires Key(s[c]) < Key(s[k])
    requires 2 * k + 1 < |s| ==> Key(s[c]) <= Key(s[2 * k + 1])
    requires 2 * k + 2 < |s| ==> Key(s[c]) <= Key(s[2 * k + 2])
    ensures forall i :: 0 < i < |s| && i != c && Parent(i) != c ==>
      Key(Swapped(s, k, c)[Parent(i)]) <= Key(Swapped(s, k, c)[i])
  {
    var t := Swapped(s, k, c);
    assert Parent(c) == k;
    forall i | 0 < i < |t| && i != c && Parent(i) != c
      ensures Key(t[Parent(i)]) <= Key(t[i])
    {
      if i == k {
        assert Key(s[Parent(k)]) <= Key(s[c]);
      } else if Parent(i) == k {
        assert i == 2 * k + 1 || i == 2 * k + 2;
        assert Key(s[c]) <= Key(s[i]);
      }
    }
  }

  /** After the sift-down swap, the entry moved down to c is no smaller than
      its new parent, which is no larger than c's children. */
  lemma SiftDownBelow(s: seq<Node>, k: nat, c: nat)
    requires Keyed(s) && k < c < |s| && HeapExcept(s, k)
    requires c == 2 * k + 1 || c == 2 * k + 2
    requires Key(s[c]) < Key(s[k])
    ensures Key(Swapped(s, k, c)[k]) <= Key(Swapped(s, k, c)[c])
    ensures forall i :: 0 < i < |s| && Parent(i) == c ==>
      Key(Swapped(s, k, c)[k]) <= Key(Swapped(s, k, c)[i])
  {
    var t := Swapped(s, k, c);
    forall i | 0 < i < |t| && Parent(i) == c
      ensures Key(t[k]) <= Key(t[i])
    {
      assert Key(s[c]) <= Key(s[i]);
    }
  }

  /** With no violation left at k, the whole sequence is a heap. */
  lemma SiftDone(s: seq<Node>, k: nat)
    requires Keyed(s) && k < |s| && HeapExcept(s, k) && !SmallerThanParent(s, k)
    requires 2 * k + 1 < |s| ==> Key(s[k]) <= Key(s[2 * k + 1])
    requires 2 * k + 2 < |s| ==> Key(s[k]) <= Key(s[2 * k + 2])
    ensures HeapOrder(s)
  {
    forall i | 0 < i < |s| && Parent(i) == k
      ensures Key(s[Parent(i)]) <= Key(s[i])
    {
      assert i == 2 * k + 1 || i == 2 * k + 2;
    }
  }

  class Heap {
    var heap: seq<Node>

    ghost predicate Valid()
      reads this
    {
      Keyed(heap) && HeapOrder(heap)
    }

    constructor ()
      ensures Valid() && heap == []
    {
      heap := [];
    }

    /** Appends node and restores heap order. */
    method Add(node: Node)
      requires Valid() && Reached(node)
      modifies this
      ensures Valid()
      ensures |heap| == old(|heap|) + 1
      ensures multiset(heap) == old(multiset(heap)) + multiset{node}
    {
      heap := heap + [node];
      MinHeapify(|heap| - 1);
    }

    /** Extracts the root: an entry whose key is no larger than any held key. */
    method RemoveMin() returns (temp: Node)
      requires Valid() && |heap| > 0
      modifies this
      ensures Valid()
      ensures temp == old(heap[0])
      ensures forall e :: e in old(heap) ==> Key(temp) <= Key(e)
      ensures multiset(heap) == old(multiset(heap)) - multiset{temp}
      ensures |heap| == old(|heap|) - 1
    {
      forall e | e in heap ensures Key(heap[0]) <= Key(e) {
        var i :| 0 <= i < |heap| && heap[i] == e;
        RootIsMinimum(heap, i);
      }
      temp := heap[0];
      ghost var s := heap;
      MoveLastInto(s, 0);
      heap := heap[0 := heap[|heap| - 1]];
      heap := heap[..|heap| - 1];
      if |s| - 1 > 0 {
        MoveLastKeepsOrder(s, 0);
      }
      if |heap| > 1 {
        MinHeapify(0);
      }
    }

    /** The root without removing it, or None on an empty heap. */
    method Peek() returns (r: Option<Node>)
      requires Valid()
      ensures r.None? <==> |heap| == 0
      ensures r.Some? ==> r.value == heap[0] && forall e :: e in heap ==> Key(r.value) <= Key(e)
    {
      if |heap| == 0 {
        return None;
      }
      forall e | e in heap ensures Key(heap[0]) <= Key(e) {
        var i :| 0 <= i < |heap| && heap[i] == e;
        RootIsMinimum(heap, i);
      }
      return Some(heap[0]);
    }

    method IsEmpty() returns (empty: bool)
      ensures empty <==> |heap| == 0
    {
      return |heap| == 0;
    }

    /** Removes one occurrence of node, moving the last entry into its slot. */
    method RemoveNode(node: Node)
      requires Valid() && node in heap
      modifies this
      ensures Valid()
      ensures |heap| == old(|heap|) - 1
      ensures multiset(heap) == old(multiset(heap)) - multiset{node}
      ensures IndexOf(old(heap), node) == old(|heap|) - 1 ==> heap == old(heap[..|heap| - 1])
    {
      var index := IndexOf(heap, node);
      ghost var s := heap;
      MoveLastInto(s, index);
      heap := heap[index := heap[|heap| - 1]];
      heap := heap[..|heap| - 1];
      if index < |s| - 1 {
        MoveLastKeepsOrder(s, index);
      }
      if |heap| > 1 && index < |heap| {
        MinHeapify(index);
      }
    }

    /** Restores heap order when it can only be broken at slot index, by
        sifting the entry there up when it is smaller than its parent and
        down otherwise. */
    method MinHeapify(index: nat)
      requires Keyed(heap) && index < |heap| && HeapExcept(heap, index)
      modifies this
      ensures Valid()
      ensures |heap| == old(|heap|)
      ensures multiset(heap) == old(multiset(heap))
      decreases if SmallerThanParent(heap, index) then |heap| + index else |heap| - index
    {
      // Java computes (0 - 1) / 2 == 0; Dafny's division would give -1.
      var parentIndex := if index == 0 then 0 else (index - 1) / 2;
      var leftChildIndex := 2 * index + 1;
      var rightChildIndex := 2 * index + 2;
      if Key(heap[index]) < Key(heap[parentIndex]) {
        SiftUpStep(heap, index);
        Swap(index, parentIndex);
        MinHeapify(parentIndex);
      } else {
        var smallestValuedIndex := index;
        if leftChildIndex < |heap| && Key(heap[index]) > Key(heap[leftChildIndex]) {
          smallestValuedIndex := leftChildIndex;
        }
        if rightChildIndex < |heap| && Key(heap[smallestValuedIndex]) > Key(heap[rightChildIndex]) {
          smallestValuedIndex := rightChildIndex;
        }
        if smallestValuedIndex != index {
          SiftDownStep(heap, index, smallestValuedIndex);
          Swap(index, smallestValuedIndex);
          MinHeapify(smallestValuedIndex);
        } else {
          SiftDone(heap, index);
        }
      }
    }

    /** Exchanges two slots and changes nothing else. */
    method Swap(i: nat, j: nat)
      requires i < |heap| && j < |heap|
      modifies this
      ensures heap == Swapped(old(heap), i, j)
      ensures multiset(heap) == old(multiset(heap))
    {
      var temp := heap[i];
      heap := heap[i := heap[j]];
      heap := heap[j := temp];
    }
  }
}
