/**
 * The array-backed binary min-heap of key_server/min_heap.rb.
 *
 * Elements are pairs `[priority, value]`; only the priority is ever compared,
 * with a strict `<`, so duplicate priorities and duplicate values are allowed.
 * The Ruby array `@heap` is grown with `<<`, shrunk with `pop` and permuted by
 * swaps; here it is the field `heap`, a sequence that the methods reassign.
 */
module MinHeaps {
  import opened Wrappers

  /** One heap element, the Ruby pair `[priority, value]`. */
  datatype Entry<V> = Entry(priority: int, value: V)

  /** `parent_index`: Ruby's `/` floors, as Dafny's does for a positive divisor; the parent comes before its child. */
  function ParentIndex(index: int): (p: int)
    ensures index > 0 ==> 0 <= p < index
    ensures index == 0 ==> p == -1
  {
    (index - 1) / 2
  }

  /** `left_child_index`: the left child of a stored index comes after it and has it as parent. */
  function LeftChildIndex(index: int): (c: int)
    ensures index >= 0 ==> index < c && ParentIndex(c) == index
  {
    2 * index + 1
  }

  /** `right_child_index`: the right child sits just after the left one and shares its parent. */
  function RightChildIndex(index: int): (c: int)
    ensures c == LeftChildIndex(index) + 1
    ensures index >= 0 ==> ParentIndex(c) == index
  {
    2 * index + 2
  }

  /** The index helpers are inverse: both children of `i` have `i` as parent. */
  lemma ChildrenHaveParent(i: nat)
    ensures ParentIndex(LeftChildIndex(i)) == i && ParentIndex(RightChildIndex(i)) == i
    ensures 0 <= ParentIndex(i + 1) <= i
  {
  }

  /** The heap order: no element has a smaller priority than its parent. */
  ghost predicate HeapOrdered<V>(h: seq<Entry<V>>) {
    forall j :: 0 < j < |h| ==> h[ParentIndex(j)].priority <= h[j].priority
  }

  /** Heap order everywhere except between `k` and its parent (sift-up in progress). */
  ghost predicate OrderedExceptAbove<V>(h: seq<Entry<V>>, k: int) {
    forall j :: 0 < j < |h| && j != k ==> h[ParentIndex(j)].priority <= h[j].priority
  }

  /** Heap order everywhere except between `k` and its children (sift-down in progress). */
  ghost predicate OrderedExceptBelow<V>(h: seq<Entry<V>>, k: int) {
    forall j :: 0 < j < |h| && ParentIndex(j) != k ==> h[ParentIndex(j)].priority <= h[j].priority
  }

  /** The parent of `k` is no larger than the children of `k`. */
  ghost predicate Bridged<V>(h: seq<Entry<V>>, k: int)
    requires 0 <= k < |h|
  {
    k > 0 ==>
      (LeftChildIndex(k) < |h| ==> h[ParentIndex(k)].priority <= h[LeftChildIndex(k)].priority) &&
      (RightChildIndex(k) < |h| ==> h[ParentIndex(k)].priority <= h[RightChildIndex(k)].priority)
  }

  /** Entries listed in nondecreasing priority, as successive `extract_min` calls return them. */
  ghost predicate InPriorityOrder<V>(es: seq<Entry<V>>) {
    forall i, j :: 0 <= i < j < |es| ==> es[i].priority <= es[j].priority
  }

  /** A sub-multiset is no larger. */
  lemma SubMultisetSize<T>(a: multiset<T>, b: multiset<T>)
    requires a <= b
    ensures |a| <= |b|
  {
    assert b == a + (b - a);
  }

  /** Following parents from `i` reaches the root, so the root is below `h[i]`. */
  lemma {:induction false} RootBelow<V>(h: seq<Entry<V>>, i: int)
    requires HeapOrdered(h) && 0 <= i < |h|
    ensures h[0].priority <= h[i].priority
    decreases i
  {
    if i > 0 {
      RootBelow(h, ParentIndex(i));
    }
  }

  /** In a heap-ordered sequence the root has a minimal priority. */
  lemma RootIsMinimum<V>(h: seq<Entry<V>>)
    requires HeapOrdered(h) && |h| > 0
    ensures forall e :: e in h ==> h[0].priority <= e.priority
  {
    forall e | e in h
      ensures h[0].priority <= e.priority
    {
      var i :| 0 <= i < |h| && h[i] == e;
      RootBelow(h, i);
    }
  }

  /** Swapping two positions permutes the heap. */
  lemma SwapKeepsMultiset<V>(h: seq<Entry<V>>, a: int, b: int)
    requires 0 <= a < |h| && 0 <= b < |h|
    ensures multiset(h[a := h[b]][b := h[a]]) == multiset(h)
  {
  }

  /** The parent-child edge into `j` after one `bubble_up` swap of `i` with its parent. */
  lemma SwapUpEdge<V>(h: seq<Entry<V>>, i: int, j: int)
    requires 0 < i < |h| && h[i].priority < h[ParentIndex(i)].priority
    requires OrderedExceptAbove(h, i) && Bridged(h, i)
    requires 0 < j < |h| && j != ParentIndex(i)
    ensures var p := ParentIndex(i);
      var h' := h[i := h[p]][p := h[i]];
      h'[ParentIndex(j)].priority <= h'[j].priority
  {
    var p := ParentIndex(i);
    ChildrenHaveParent(j - 1);
    if ParentIndex(j) == i {
      ChildrenHaveParent(i);
      assert j == LeftChildIndex(i) || j == RightChildIndex(i);
    } else if j != i && ParentIndex(j) == p {
      assert h[p].priority <= h[j].priority;
    }
  }

  /** One step of `bubble_up`: swapping `h[i]` with its larger parent moves the gap up. */
  lemma SwapUpStep<V>(h: seq<Entry<V>>, i: int)
    requires 0 < i < |h| && h[i].priority < h[ParentIndex(i)].priority
    requires OrderedExceptAbove(h, i) && Bridged(h, i)
    ensures var p := ParentIndex(i);
      var h' := h[i := h[p]][p := h[i]];
      OrderedExceptAbove(h', p) && Bridged(h', p) && multiset(h') == multiset(h)
  {
    var p := ParentIndex(i);
    var h' := h[i := h[p]][p := h[i]];
    ChildrenHaveParent(i - 1);
    forall j | 0 < j < |h'| && j != p
      ensures h'[ParentIndex(j)].priority <= h'[j].priority
    {
      SwapUpEdge(h, i, j);
    }
    if p > 0 {
      ChildrenHaveParent(p);
      assert h[ParentIndex(p)].priority <= h[p].priority;
      assert i == LeftChildIndex(p) || i == RightChildIndex(p);
    }
    SwapKeepsMultiset(h, i, p);
  }

  /** The parent-child edge into `j` after one `bubble_down` swap of `i` with its child `s`. */
  lemma SwapDownEdge<V>(h: seq<Entry<V>>, i: int, s: int, j: int)
    requires 0 <= i < s < |h| && (s == LeftChildIndex(i) || s == RightChildIndex(i))
    requires h[s].priority < h[i].priority
    requires LeftChildIndex(i) < |h| ==> h[s].priority <= h[LeftChildIndex(i)].priority
    requires RightChildIndex(i) < |h| ==> h[s].priority <= h[RightChildIndex(i)].priority
    requires OrderedExceptBelow(h, i) && Bridged(h, i)
    requires 0 < j < |h| && ParentIndex(j) != s
    ensures var h' := h[i := h[s]][s := h[i]];
      h'[ParentIndex(j)].priority <= h'[j].priority
  {
    ChildrenHaveParent(i);
    ChildrenHaveParent(j - 1);
    if ParentIndex(j) == i {
      assert j == LeftChildIndex(i) || j == RightChildIndex(i);
    } else if j == i {
      assert h[ParentIndex(i)].priority <= h[s].priority;
    }
  }

  /** One step of `bubble_down`: swapping `h[i]` with its smaller child `s` moves the gap down. */
  lemma SwapDownStep<V>(h: seq<Entry<V>>, i: int, s: int)
    requires 0 <= i < s < |h| && (s == LeftChildIndex(i) || s == RightChildIndex(i))
    requires h[s].priority < h[i].priority
    requires LeftChildIndex(i) < |h| ==> h[s].priority <= h[LeftChildIndex(i)].priority
    requires RightChildIndex(i) < |h| ==> h[s].priority <= h[RightChildIndex(i)].priority
    requires OrderedExceptBelow(h, i) && Bridged(h, i)
    ensures var h' := h[i := h[s]][s := h[i]];
      OrderedExceptBelow(h', s) && Bridged(h', s) && multiset(h') == multiset(h)
  {
    var h' := h[i := h[s]][s := h[i]];
    forall j | 0 < j < |h'| && ParentIndex(j) != s
      ensures h'[ParentIndex(j)].priority <= h'[j].priority
    {
      SwapDownEdge(h, i, s, j);
    }
    SwapDownBridged(h, i, s);
    SwapKeepsMultiset(h, i, s);
  }

  /** After a `bubble_down` swap the moved element, now at `s`, is no larger than the children of `s`. */
  lemma SwapDownBridged<V>(h: seq<Entry<V>>, i: int, s: int)
    requires 0 <= i < s < |h| && (s == LeftChildIndex(i) || s == RightChildIndex(i))
    requires OrderedExceptBelow(h, i)
    ensures Bridged(h[i := h[s]][s := h[i]], s)
  {
    var h' := h[i := h[s]][s := h[i]];
    ChildrenHaveParent(i);
    ChildrenHaveParent(s);
    assert ParentIndex(LeftChildIndex(s)) == s != i;
    assert ParentIndex(RightChildIndex(s)) == s != i;
  }

  /** Once no child of `i` is smaller than `h[i]`, the sift-down is finished and the whole sequence is a heap. */
  lemma SettledBelow<V>(h: seq<Entry<V>>, i: int)
    requires 0 <= i < |h| && OrderedExceptBelow(h, i)
    requires LeftChildIndex(i) < |h| ==> h[i].priority <= h[LeftChildIndex(i)].priority
    requires RightChildIndex(i) < |h| ==> h[i].priority <= h[RightChildIndex(i)].priority
    ensures HeapOrdered(h)
  {
    forall j | 0 < j < |h|
      ensures h[ParentIndex(j)].priority <= h[j].priority
    {
      if ParentIndex(j) == i {
        assert j == LeftChildIndex(i) || j == RightChildIndex(i);
      }
    }
  }

  /** Moving the last element of a heap to its root leaves a heap with a gap only below the root, without the root. */
  lemma LastToRoot<V>(h: seq<Entry<V>>)
    requires HeapOrdered(h) && |h| > 1
    ensures var h' := h[..|h| - 1][0 := h[|h| - 1]];
      && OrderedExceptBelow(h', 0) && Bridged(h', 0)
      && multiset(h') == multiset(h) - multiset{h[0]}
  {
    var n := |h|;
    var h' := h[..n - 1][0 := h[n - 1]];
    forall j | 0 < j < |h'| && ParentIndex(j) != 0
      ensures h'[ParentIndex(j)].priority <= h'[j].priority
    {
      assert h'[ParentIndex(j)] == h[ParentIndex(j)] && h'[j] == h[j];
    }
    LastToRootMultiset(h);
  }

  /** Moving the last element to the root drops the root from the multiset. */
  lemma LastToRootMultiset<V>(h: seq<Entry<V>>)
    requires |h| > 1
    ensures multiset(h[..|h| - 1][0 := h[|h| - 1]]) == multiset(h) - multiset{h[0]}
  {
    var n := |h|;
    assert h == [h[0]] + h[1..n - 1] + [h[n - 1]];
    assert h[..n - 1][0 := h[n - 1]] == [h[n - 1]] + h[1..n - 1];
  }

  class MinHeap<V> {
    var heap: seq<Entry<V>>

    ghost predicate Valid()
      reads this
    {
      HeapOrdered(heap)
    }

    constructor ()
      ensures Valid() && heap == []
    {
      heap := [];
    }

    /** `insert`: append, then restore the order by bubbling up. */
    method Insert(item: Entry<V>)
      requires Valid()
      modifies this
      ensures Valid()
      ensures |heap| == old(|heap|) + 1
      ensures multiset(heap) == old(multiset(heap)) + multiset{item}
    {
      heap := heap + [item];
      BubbleUp(|heap| - 1);
    }

    /**
     * `extract_min`: nil on an empty heap; otherwise the root is returned and
     * replaced by the last element, which then bubbles down.
     */
    method ExtractMin() returns (r: Option<Entry<V>>)
      requires Valid()
      modifies this
      ensures Valid()
      ensures old(heap) == [] ==> r == None && heap == old(heap)
      ensures old(heap) != [] ==>
        && r == Some(old(heap)[0])
        && (forall e :: e in old(heap) ==> r.value.priority <= e.priority)
        && multiset(heap) == old(multiset(heap)) - multiset{r.value}
        && |heap| == old(|heap|) - 1
    {
      if |heap| == 0 {
        return None;
      }
      RootIsMinimum(heap);
      if |heap| == 1 {
        r := Some(heap[0]);
        heap := [];
        return;
      }
      var minItem := heap[0];
      var n := |heap|;
      var last := heap[n - 1];
      LastToRoot(heap);
      heap := heap[..n - 1];
      heap := heap[0 := last];
      BubbleDown(0);
      r := Some(minItem);
    }

    /** `peek`: the root, or nil; the root has a minimal priority. */
    function Peek(): (r: Option<Entry<V>>)
      requires Valid()
      reads this
      ensures r.None? <==> |heap| == 0
      ensures r.Some? ==> r.value == heap[0] && forall e :: e in heap ==> r.value.priority <= e.priority
    {
      if |heap| == 0 then None else RootIsMinimum(heap); Some(heap[0])
    }

    function Size(): (n: nat)
      reads this
      ensures n == |multiset(heap)|
    {
      |heap|
    }

    function IsEmpty(): (b: bool)
      reads this
      ensures b <==> Size() == 0
    {
      heap == []
    }

    /** `bubble_up`: swap `heap[index]` with its parent while it is strictly smaller. */
    method BubbleUp(index: nat)
      requires index < |heap|
      requires OrderedExceptAbove(heap, index) && Bridged(heap, index)
      modifies this
      ensures Valid()
      ensures |heap| == old(|heap|) && multiset(heap) == old(multiset(heap))
    {
      var i := index;
      while i > 0 && heap[i].priority < heap[ParentIndex(i)].priority
        invariant 0 <= i < |heap| == old(|heap|)
        invariant multiset(heap) == old(multiset(heap))
        invariant OrderedExceptAbove(heap, i) && Bridged(heap, i)
      {
        var p := ParentIndex(i);
        SwapUpStep(heap, i);
        heap := heap[i := heap[p]][p := heap[i]];
        i := p;
      }
    }

    /** `bubble_down`: swap `heap[index]` with its smaller child while that child is strictly smaller. */
    method BubbleDown(index: nat)
      requires index < |heap|
      requires OrderedExceptBelow(heap, index) && Bridged(heap, index)
      modifies this
      ensures Valid()
      ensures |heap| == old(|heap|) && multiset(heap) == old(multiset(heap))
    {
      var i := index;
      while true
        invariant 0 <= i < |heap| == old(|heap|)
        invariant multiset(heap) == old(multiset(heap))
        invariant OrderedExceptBelow(heap, i) && Bridged(heap, i)
        decreases |heap| - i
      {
        var left, right := LeftChildIndex(i), RightChildIndex(i);
        var smallest := i;
        if left < |heap| && heap[left].priority < heap[smallest].priority {
          smallest := left;
        }
        if right < |heap| && heap[right].priority < heap[smallest].priority {
          smallest := right;
        }
        if smallest != i {
          SwapDownStep(heap, i, smallest);
          heap := heap[i := heap[smallest]][smallest := heap[i]];
          i := smallest;
        } else {
          SettledBelow(heap, i);
          break;
        }
      }
    }
  }
}
