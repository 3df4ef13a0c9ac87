/**
 * The frontier of the search: a binary min-heap stored in a growable vector,
 * ordered by the f-score of its entries. There is no decrease-key; the same
 * vertex may be present several times.
 */
module Heap {

  /** A heap entry: a vertex and the f-score it was pushed with. */
  datatype Entry = Entry(v: int, f: int)

  /** Index of the parent slot. For 0 the C++ expression (0 - 1) / 2 truncates to 0. */
  function Parent(i: nat): (p: nat)
    ensures i > 0 ==> p < i && (Left(p) == i || Right(p) == i)
    ensures i == 0 ==> p == 0
  {
    if i == 0 then 0 else (i - 1) / 2
  }

  /** Index of the left child slot. */
  function Left(i: nat): (l: nat)
    ensures i < l && l % 2 == 1
  {
    2 * i + 1
  }

  /** Index of the right child slot. */
  function Right(i: nat): (r: nat)
    ensures Left(i) < r && r % 2 == 0
  {
    2 * i + 2
  }

  /** The heap property: no entry has a smaller key than its parent. */
  ghost predicate IsMinHeap(s: seq<Entry>) {
    forall i :: 0 < i < |s| ==> s[Parent(i)].f <= s[i].f
  }

  /**
   * The heap property everywhere except between slot i and its children;
   * in addition, i's own parent is no larger than i's children, so that
   * moving i's content down restores the property.
   */
  ghost predicate IsMinHeapExcept(s: seq<Entry>, i: nat) {
    && (forall k :: 0 < k < |s| && Parent(k) != i ==> s[Parent(k)].f <= s[k].f)
    && (0 < i < |s| ==> forall k :: 0 < k < |s| && Parent(k) == i ==> s[Parent(i)].f <= s[k].f)
  }

  /**
   * The heap property everywhere except between slot i and its parent;
   * in addition, i's parent is no larger than i's children. This holds while
   * a new entry moves up from the last slot.
   */
  ghost predicate IsMinHeapAbove(s: seq<Entry>, i: nat) {
    && (forall k :: 0 < k < |s| && k != i ==> s[Parent(k)].f <= s[k].f)
    && (0 < i < |s| ==> forall k :: 0 < k < |s| && Parent(k) == i ==> s[Parent(i)].f <= s[k].f)
  }

  /** One exchange of the sift-up moves the exception one level towards the root. */
  lemma SiftUpStep(s: seq<Entry>, i: nat)
    requires 0 < i < |s| && IsMinHeapAbove(s, i)
    requires s[Parent(i)].f > s[i].f
    ensures IsMinHeapAbove(Swap(s, i, Parent(i)), Parent(i))
  {
    var p := Parent(i);
    var t := Swap(s, i, p);
    forall k | 0 < k < |t| && k != p
      ensures t[Parent(k)].f <= t[k].f
    {
      if k == i {
      } else if Parent(k) == i {
        assert t[k] == s[k];
      } else if Parent(k) == p {
        assert t[k] == s[k];
      } else if k == p {
      }
    }
    if 0 < p {
      forall k | 0 < k < |t| && Parent(k) == p
        ensures t[Parent(p)].f <= t[k].f
      {
        assert t[Parent(p)] == s[Parent(p)];
      }
    }
  }

  /**
   * One exchange of the sift-down: when child c of slot i holds the smallest
   * key among i and its children, and it is smaller than i's, exchanging them
   * moves the exception down to c.
   */
  lemma SiftDownStep(s: seq<Entry>, i: nat, c: nat)
    requires IsMinHeapExcept(s, i) && i < |s| && c < |s|
    requires c == Left(i) || c == Right(i)
    requires s[c].f < s[i].f
    requires Left(i) < |s| ==> s[c].f <= s[Left(i)].f
    requires Right(i) < |s| ==> s[c].f <= s[Right(i)].f
    ensures IsMinHeapExcept(Swap(s, i, c), c)
  {
    var t := Swap(s, i, c);
    forall k | 0 < k < |t| && Parent(k) != c
      ensures t[Parent(k)].f <= t[k].f
    {
      if k == c {
      } else if Parent(k) == i {
        assert t[k] == s[k];
      } else if k == i {
        assert t[Parent(k)] == s[Parent(k)];
      } else {
        assert t[k] == s[k] && t[Parent(k)] == s[Parent(k)];
      }
    }
    forall k | 0 < k < |t| && Parent(k) == c
      ensures t[Parent(c)].f <= t[k].f
    {
      assert t[k] == s[k];
    }
  }

  /** Exchanges two slots, as std::swap on two vector elements does. */
  function Swap(s: seq<Entry>, i: nat, j: nat): (t: seq<Entry>)
    requires i < |s| && j < |s|
    ensures |t| == |s| && t[i] == s[j] && t[j] == s[i]
    ensures forall k :: 0 <= k < |s| && k != i && k != j ==> t[k] == s[k]
    ensures multiset(t) == multiset(s)
  {
    s[i := s[j]][j := s[i]]
  }

  /** The root of a min-heap has the smallest key of all entries. */
  lemma {:induction false} RootIsMinimum(s: seq<Entry>, k: nat)
    requires IsMinHeap(s) && k < |s|
    ensures s[0].f <= s[k].f
    decreases k
  {
    if k > 0 {
      RootIsMinimum(s, Parent(k));
    }
  }

  /**
   * Any two successive extractions come out in non-decreasing key order:
   * after the minimum m has been removed, whatever is extracted next was
   * already in the heap, so its key is at least m's.
   */
  lemma {:induction false} ExtractionOrder(s: seq<Entry>, rest: seq<Entry>, m: Entry, next: Entry)
    requires IsMinHeap(s) && |s| > 0 && m == s[0]
    requires multiset(rest) + multiset{m} == multiset(s)
    requires next in rest
    ensures m.f <= next.f
  {
    assert next in multiset(rest);
    assert next in multiset(s);
    var k :| 0 <= k < |s| && s[k] == next;
    RootIsMinimum(s, k);
  }

  class MinHeap {
    var heap: seq<Entry>

    ghost predicate Valid()
      reads this
    {
      IsMinHeap(heap)
    }

    constructor()
      ensures Valid() && heap == []
    {
      heap := [];
    }

    /** Appends the entry and sifts it up while its parent has a strictly larger key. */
    method Insert(node: Entry)
      requires Valid()
      modifies this
      ensures Valid()
      ensures |heap| == old(|heap|) + 1
      ensures multiset(heap) == old(multiset(heap)) + multiset{node}
    {
      heap := heap + [node];
      var i := |heap| - 1;
      while i != 0 && heap[Parent(i)].f > heap[i].f
        invariant 0 <= i < |heap| == old(|heap|) + 1
        invariant multiset(heap) == old(multiset(heap)) + multiset{node}
        invariant IsMinHeapAbove(heap, i)
      {
        var p := Parent(i);
        SiftUpStep(heap, i);
        heap := Swap(heap, i, p);
        i := p;
      }
    }

    /**
     * Sifts the entry in slot i down, exchanging it with its smaller child
     * while that child's key is strictly smaller, and recursing there.
     */
    method Heapify(i: nat)
      requires IsMinHeapExcept(heap, i)
      modifies this
      ensures Valid()
      ensures |heap| == old(|heap|)
      ensures multiset(heap) == old(multiset(heap))
      decreases |heap| - i
    {
      var l := Left(i);
      var r := Right(i);
      var smallest := i;
      if l < |heap| && heap[l].f < heap[smallest].f {
        smallest := l;
      }
      if r < |heap| && heap[r].f < heap[smallest].f {
        smallest := r;
      }
      if smallest != i {
        SiftDownStep(heap, i, smallest);
        heap := Swap(heap, i, smallest);
        Heapify(smallest);
      }
    }

    /**
     * Removes and returns the root. The last entry takes the root's slot and
     * is sifted down. pathfinder.cpp reads heap[0] unchecked, so the heap must
     * not be empty.
     */
    method ExtractMin() returns (root: Entry)
      requires Valid() && |heap| > 0
      modifies this
      ensures Valid()
      ensures root == old(heap[0])
      ensures |heap| == old(|heap|) - 1
      ensures multiset(heap) + multiset{root} == old(multiset(heap))
      ensures forall e :: e in heap ==> root.f <= e.f
    {
      ghost var before := heap;
      if |heap| == 1 {
        root := heap[0];
        heap := heap[..0];
        return;
      }
      root := heap[0];
      heap := heap[0 := heap[|heap| - 1]];
      heap := heap[..|heap| - 1];
      assert before == [root] + before[1..|before| - 1] + [before[|before| - 1]];
      assert heap == [before[|before| - 1]] + before[1..|before| - 1];
      Heapify(0);
      forall e | e in heap
        ensures root.f <= e.f
      {
        ExtractionOrder(before, heap, root, e);
      }
    }

    method IsEmpty() returns (empty: bool)
      ensures empty <==> heap == []
    {
      empty := |heap| == 0;
    }
  }
}
