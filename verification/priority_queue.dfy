/**
 * The binary min-heap behind `PriorityQueue`: a list where no element
 * compares below its parent at (i - 1) / 2. Elements are tiles, compared
 * by `Tile.CompareTo` on their priority.
 */
module Heap {
  import opened Tiles

  /** A queued tile: its identity and its priority. */
  datatype Node = Node(id: nat, priority: int)

  datatype PriorityQueue = PriorityQueue(data: seq<Node>)

  /** `a.CompareTo(b) <= 0`. */
  predicate NotAbove(a: Node, b: Node)
  {
    CompareTo(a.priority, b.priority) <= 0
  }

  function Parent(i: nat): nat
    requires i > 0
  {
    (i - 1) / 2
  }

  /** The children of `p` are exactly 2p + 1 and 2p + 2. */
  lemma ChildOf(p: nat, i: nat)
    requires i > 0
    ensures Parent(i) == p <==> i == 2 * p + 1 || i == 2 * p + 2
  {
  }

  /** Element i (not the root) is no smaller than its parent. */
  predicate ParentOk(s: seq<Node>, i: nat)
    requires 0 < i < |s|
  {
    NotAbove(s[Parent(i)], s[i])
  }

  /** Heap order: every element is no smaller than its parent. */
  predicate HeapOrdered(s: seq<Node>)
  {
    forall i :: 0 < i < |s| ==> ParentOk(s, i)
  }

  /** Heap order everywhere except between k and its parent. */
  predicate HeapExceptAt(s: seq<Node>, k: nat)
  {
    forall i :: 0 < i < |s| && i != k ==> ParentOk(s, i)
  }

  /** Heap order everywhere except between k and its children. */
  predicate HeapExceptBelow(s: seq<Node>, k: nat)
  {
    forall i :: 0 < i < |s| && Parent(i) != k ==> ParentOk(s, i)
  }

  /** The parent of k is no greater than the children of k. */
  predicate Bridge(s: seq<Node>, k: nat)
    requires k < |s|
  {
    k > 0 ==> forall i :: 0 < i < |s| && Parent(i) == k ==> NotAbove(s[Parent(k)], s[i])
  }

  function Swap(s: seq<Node>, i: nat, j: nat): (t: seq<Node>)
    requires i < |s| && j < |s|
    ensures |t| == |s| && t[i] == s[j] && t[j] == s[i]
    ensures forall k :: 0 <= k < |s| && k != i && k != j ==> t[k] == s[k]
    ensures multiset(t) == multiset(s)
  {
    s[i := s[j]][j := s[i]]
  }

  /** One sift-up swap moves the single defect one level towards the root. */
  lemma {:induction false} SiftUpStep(s: seq<Node>, c: nat)
    requires 0 < c < |s| && HeapExceptAt(s, c) && Bridge(s, c)
    requires !ParentOk(s, c)
    ensures HeapExceptAt(Swap(s, c, Parent(c)), Parent(c))
    ensures Bridge(Swap(s, c, Parent(c)), Parent(c))
  {
    var p := Parent(c);
    var t := Swap(s, c, p);
    forall i | 0 < i < |t| && i != p ensures ParentOk(t, i) {
      if i == c {
      } else if Parent(i) == c {
      } else if Parent(i) == p {
        assert ParentOk(s, i);
      } else {
        assert ParentOk(s, i);
      }
    }
    if p > 0 {
      forall i | 0 < i < |t| && Parent(i) == p ensures NotAbove(t[Parent(p)], t[i]) {
        assert ParentOk(s, p);
        if i != c {
          assert ParentOk(s, i);
        }
      }
    }
  }

  /** One sift-down swap with the smaller child moves the defect one level down. */
  lemma {:induction false} SiftDownStep(s: seq<Node>, p: nat, c: nat)
    requires 0 < c < |s| && Parent(c) == p && HeapExceptBelow(s, p) && Bridge(s, p)
    requires forall i :: 0 < i < |s| && Parent(i) == p ==> NotAbove(s[c], s[i])
    requires !ParentOk(s, c)
    ensures HeapExceptBelow(Swap(s, p, c), c)
    ensures Bridge(Swap(s, p, c), c)
  {
    var t := Swap(s, p, c);
    forall i | 0 < i < |t| && Parent(i) != c ensures ParentOk(t, i) {
      if i == p {
      } else if Parent(i) == p {
      } else {
        assert ParentOk(s, i);
      }
    }
    forall i | 0 < i < |t| && Parent(i) == c ensures NotAbove(t[p], t[i]) {
      assert ParentOk(s, i);
    }
  }

  /** The empty queue the constructor makes. */
  function Empty(): (q: PriorityQueue)
    ensures Count(q) == 0 && HeapOrdered(q.data)
  {
    PriorityQueue([])
  }

  function Count(q: PriorityQueue): (n: nat)
    ensures n == |multiset(q.data)|
  {
    |q.data|
  }

  /** `Contains`: equality search over the list. */
  predicate Contains(q: PriorityQueue, x: Node): (b: bool)
    ensures b <==> multiset(q.data)[x] > 0
  {
    x in q.data
  }

  /** In a heap the first element is no greater than any other. */
  lemma {:induction false} RootIsMinimum(s: seq<Node>, i: nat)
    requires HeapOrdered(s) && i < |s|
    ensures NotAbove(s[0], s[i])
    decreases i
  {
    if i > 0 {
      RootIsMinimum(s, Parent(i));
      assert ParentOk(s, i);
    }
  }

  /** `Peek`: the front element, a minimum, with the queue unchanged. */
  function Peek(q: PriorityQueue): (x: Node)
    requires |q.data| > 0 && HeapOrdered(q.data)
    ensures x in q.data
    ensures forall i :: 0 <= i < |q.data| ==> x.priority <= q.data[i].priority
  {
    var x := q.data[0];
    assert forall i :: 0 <= i < |q.data| ==> NotAbove(x, q.data[i]) by {
      forall i | 0 <= i < |q.data| ensures NotAbove(x, q.data[i]) {
        RootIsMinimum(q.data, i);
      }
    }
    x
  }

  /** `ToList`: the backing list itself, in heap order. */
  function ToList(q: PriorityQueue): (s: seq<Node>)
    requires HeapOrdered(q.data)
    ensures multiset(s) == multiset(q.data) && HeapOrdered(s)
  {
    q.data
  }

  predicate SortedByPriority(s: seq<Node>)
  {
    forall i, j :: 0 <= i < j < |s| ==> s[i].priority <= s[j].priority
  }

  /** Heap order is weaker than sorted order: `ToList` need not be sorted. */
  lemma ToListNotSorted()
    ensures var q := PriorityQueue([Node(0, 1), Node(1, 3), Node(2, 2)]);
      HeapOrdered(q.data) && !SortedByPriority(ToList(q))
  {
    var s := [Node(0, 1), Node(1, 3), Node(2, 2)];
    assert s[1].priority > s[2].priority;
  }

  /**
   * `Enqueue`: add at the end and sift up, swapping with the parent while
   * strictly smaller than it.
   */
  method Enqueue(q: PriorityQueue, item: Node) returns (r: PriorityQueue)
    requires HeapOrdered(q.data)
    ensures HeapOrdered(r.data)
    ensures multiset(r.data) == multiset(q.data) + multiset{item}
    ensures Count(r) == Count(q) + 1
  {
    var data := q.data + [item];
    var child := |data| - 1;
    forall i | 0 < i < |data| && i != child ensures ParentOk(data, i) {
      assert ParentOk(q.data, i);
    }
    while child > 0 && CompareTo(data[child].priority, data[Parent(child)].priority) < 0
      invariant 0 <= child < |data| && |data| == |q.data| + 1
      invariant multiset(data) == multiset(q.data) + multiset{item}
      invariant HeapExceptAt(data, child) && Bridge(data, child)
      decreases child
    {
      var parent := Parent(child);
      SiftUpStep(data, child);
      data := Swap(data, child, parent);
      child := parent;
    }
    r := PriorityQueue(data);
  }

  /** The list after `Dequeue` moves its last element to the front. */
  function DropFront(s: seq<Node>): (t: seq<Node>)
    requires |s| > 0
    ensures |t| == |s| - 1
    ensures multiset(t) + multiset{s[0]} == multiset(s)
  {
    var last := |s| - 1;
    if last == 0 then []
    else
      assert s == [s[0]] + s[1..last] + [s[last]];
      assert s[0 := s[last]][..last] == [s[last]] + s[1..last];
      s[0 := s[last]][..last]
  }

  /** Dropping the front of a heap leaves heap order broken only below the root. */
  lemma DropFrontHeap(s: seq<Node>)
    requires |s| > 0 && HeapOrdered(s)
    ensures HeapExceptBelow(DropFront(s), 0)
    ensures forall x :: x in DropFront(s) ==> s[0].priority <= x.priority
  {
    var t := DropFront(s);
    forall i | 0 < i < |t| && Parent(i) != 0 ensures ParentOk(t, i) {
      assert ParentOk(s, i);
    }
    forall x | x in t ensures s[0].priority <= x.priority {
      assert x in multiset(s);
      var k :| 0 <= k < |s| && s[k] == x;
      RootIsMinimum(s, k);
    }
  }

  /** The child `SiftDown` picks, the right one only when strictly smaller, is no greater than any child of `p`. */
  lemma SmallerChild(s: seq<Node>, p: nat, c: nat)
    requires 2 * p + 1 < |s| && c < |s|
    requires c == 2 * p + 1 || c == 2 * p + 2
    requires c == 2 * p + 1 && 2 * p + 2 < |s| ==> NotAbove(s[c], s[2 * p + 2])
    requires c == 2 * p + 2 ==> NotAbove(s[c], s[2 * p + 1])
    ensures Parent(c) == p
    ensures forall i :: 0 < i < |s| && Parent(i) == p ==> NotAbove(s[c], s[i])
  {
    ChildOf(p, c);
    forall i | 0 < i < |s| && Parent(i) == p ensures NotAbove(s[c], s[i]) {
      ChildOf(p, i);
    }
  }

  /** Once the parent is no greater than its smaller child, heap order holds everywhere. */
  lemma SiftDownDone(s: seq<Node>, p: nat, c: nat)
    requires 0 < c < |s| && Parent(c) == p && HeapExceptBelow(s, p)
    requires forall i :: 0 < i < |s| && Parent(i) == p ==> NotAbove(s[c], s[i])
    requires NotAbove(s[p], s[c])
    ensures HeapOrdered(s)
  {
    forall i | 0 < i < |s| ensures ParentOk(s, i) {
      if Parent(i) == p {
        assert NotAbove(s[c], s[i]);
      }
    }
  }

  /** With no children below `p`, heap order holds everywhere. */
  lemma SiftDownLeaf(s: seq<Node>, p: nat)
    requires HeapExceptBelow(s, p) && 2 * p + 1 >= |s|
    ensures HeapOrdered(s)
  {
    forall i | 0 < i < |s| ensures ParentOk(s, i) {
      ChildOf(p, i);
    }
  }

  /** Sift the front element down until heap order holds everywhere. */
  method SiftDown(s: seq<Node>) returns (data: seq<Node>)
    requires HeapExceptBelow(s, 0)
    ensures HeapOrdered(data) && multiset(data) == multiset(s)
  {
    data := s;
    var parent := 0;
    while 2 * parent + 1 < |data|
      invariant |data| == |s| && (parent < |data| || |data| == 0)
      invariant multiset(data) == multiset(s)
      invariant HeapExceptBelow(data, parent) && (parent < |data| ==> Bridge(data, parent))
      decreases |data| - parent
    {
      var child := 2 * parent + 1;
      var right := child + 1;
      if right < |data| && CompareTo(data[right].priority, data[child].priority) < 0 {
        child := right;
      }
      SmallerChild(data, parent, child);
      if CompareTo(data[parent].priority, data[child].priority) <= 0 {
        SiftDownDone(data, parent, child);
        return;
      }
      SiftDownStep(data, parent, child);
      data := Swap(data, parent, child);
      parent := child;
    }
    SiftDownLeaf(data, parent);
  }

  /**
   * `Dequeue`: take the front, move the last element to the front and sift
   * it down, swapping with the smaller child (the left one on a tie) while
   * strictly larger than it.
   */
  method Dequeue(q: PriorityQueue) returns (front: Node, r: PriorityQueue)
    requires |q.data| > 0 && HeapOrdered(q.data)
    ensures HeapOrdered(r.data)
    ensures multiset(r.data) + multiset{front} == multiset(q.data)
    ensures Count(r) == Count(q) - 1
    ensures forall x :: x in r.data ==> front.priority <= x.priority
  {
    front := q.data[0];
    DropFrontHeap(q.data);
    var data := SiftDown(DropFront(q.data));
    forall x | x in data ensures front.priority <= x.priority {
      assert x in multiset(DropFront(q.data));
    }
    r := PriorityQueue(data);
  }
}
