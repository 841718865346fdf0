/**
 * The scheduler's priority queue (workHeap in feed/scheduler.go): a binary heap
 * in a slice, ordered by priority and then by submission number, driven by
 * container/heap's sift-up and sift-down.
 */
module WorkHeap {

  // One queued item; `task` stands for its Do function.
  datatype Entry = Entry(priority: nat, seqNo: nat, task: nat)

  // Less of workHeap: a lower priority value is more urgent.
  predicate Less(a: Entry, b: Entry) {
    a.priority < b.priority || (a.priority == b.priority && a.seqNo < b.seqNo)
  }

  // a may run before b.
  predicate Before(a: Entry, b: Entry) {
    !Less(b, a)
  }

  ghost predicate IsLeast(e: Entry, s: set<Entry>) {
    e in s && forall x :: x in s ==> Before(e, x)
  }

  // There is always something to run next.
  lemma {:induction false} LeastExists(s: set<Entry>)
    requires s != {}
    ensures exists e :: IsLeast(e, s)
    decreases |s|
  {
    var x :| x in s;
    var rest := s - {x};
    assert s == rest + {x};
    if rest == {} {
      assert IsLeast(x, s);
    } else {
      LeastExists(rest);
      var y :| IsLeast(y, rest);
      assert forall z :: z in s ==> z == x || Before(y, z);
      assert if Before(x, y) then IsLeast(x, s) else IsLeast(y, s);
    }
  }

  function Parent(k: nat): nat
    requires k > 0
  {
    (k - 1) / 2
  }

  ghost predicate HeapOrdered(h: seq<Entry>) {
    forall k :: 0 < k < |h| ==> Before(h[Parent(k)], h[k])
  }

  function Swap(h: seq<Entry>, i: nat, j: nat): (r: seq<Entry>)
    requires i < |h| && j < |h|
    ensures |r| == |h|
    ensures multiset(r) == multiset(h)
  {
    h[i := h[j]][j := h[i]]
  }

  // Heap order everywhere except between j and its parent.
  ghost predicate RisingAt(h: seq<Entry>, j: nat) {
    && j < |h|
    && (forall k :: 0 < k < |h| && k != j ==> Before(h[Parent(k)], h[k]))
    && (forall k :: 0 < k < |h| && j > 0 && Parent(k) == j ==> Before(h[Parent(j)], h[k]))
  }

  lemma RiseStep(h: seq<Entry>, j: nat)
    requires RisingAt(h, j) && j > 0 && Less(h[j], h[Parent(j)])
    ensures RisingAt(Swap(h, Parent(j), j), Parent(j))
  {
    var p, r := Parent(j), Swap(h, Parent(j), j);
    forall k | 0 < k < |r| && k != p
      ensures Before(r[Parent(k)], r[k])
    {
      if k != j && Parent(k) != j && Parent(k) != p {
        assert r[k] == h[k] && r[Parent(k)] == h[Parent(k)];
      } else if k != j && Parent(k) == p {
        assert Before(h[p], h[k]);
      }
    }
    forall k | 0 < k < |r| && p > 0 && Parent(k) == p
      ensures Before(r[Parent(p)], r[k])
    {
      assert Before(h[Parent(p)], h[p]);
      if k != j {
        assert Before(h[p], h[k]);
      }
    }
  }

  // heap.Push
  method Push(h: seq<Entry>, e: Entry) returns (r: seq<Entry>)
    requires HeapOrdered(h)
    ensures HeapOrdered(r) && multiset(r) == multiset(h) + multiset{e}
  {
    r := h + [e];
    var j: nat := |h|;
    while j > 0 && Less(r[j], r[Parent(j)])
      invariant RisingAt(r, j) && multiset(r) == multiset(h) + multiset{e}
    {
      RiseStep(r, j);
      r, j := Swap(r, Parent(j), j), Parent(j);
    }
  }

  // Heap order everywhere except between i and its children.
  ghost predicate SinkingAt(h: seq<Entry>, i: nat) {
    && (forall k :: 0 < k < |h| && Parent(k) != i ==> Before(h[Parent(k)], h[k]))
    && (forall k :: 0 < k < |h| && i > 0 && Parent(k) == i && i < |h| ==> Before(h[Parent(i)], h[k]))
  }

  // j is the more urgent child of i.
  ghost predicate LeastChild(h: seq<Entry>, i: nat, j: nat) {
    && 0 < j < |h| && Parent(j) == i
    && (forall k :: 0 < k < |h| && Parent(k) == i ==> Before(h[j], h[k]))
  }

  lemma SinkStep(h: seq<Entry>, i: nat, j: nat)
    requires SinkingAt(h, i) && LeastChild(h, i, j) && Less(h[j], h[i])
    ensures SinkingAt(Swap(h, i, j), j)
  {
    var r := Swap(h, i, j);
    forall k | 0 < k < |r| && Parent(k) != j
      ensures Before(r[Parent(k)], r[k])
    {
      if Parent(k) == i {
        assert Before(h[j], h[k]);
      } else if k == i {
        assert Before(h[Parent(i)], h[j]);
      } else {
        assert r[k] == h[k] && r[Parent(k)] == h[Parent(k)];
      }
    }
    forall k | 0 < k < |r| && Parent(k) == j
      ensures Before(r[Parent(j)], r[k])
    {
      assert Before(h[j], h[k]);
    }
  }

  method ChooseChild(h: seq<Entry>, i: nat) returns (j: nat)
    requires 2 * i + 1 < |h|
    ensures LeastChild(h, i, j)
  {
    j := 2 * i + 1;
    if j + 1 < |h| && Less(h[j + 1], h[j]) {
      j := j + 1;
    }
    assert forall k :: 0 < k < |h| && Parent(k) == i ==> k == 2 * i + 1 || k == 2 * i + 2;
  }

  // container/heap's down, from the root.
  method SiftDown(h: seq<Entry>) returns (r: seq<Entry>)
    requires SinkingAt(h, 0)
    ensures HeapOrdered(r) && multiset(r) == multiset(h)
  {
    r := h;
    var i := 0;
    while 2 * i + 1 < |r|
      invariant SinkingAt(r, i) && multiset(r) == multiset(h)
      decreases |r| - i
    {
      var j := ChooseChild(r, i);
      if !Less(r[j], r[i]) {
        return;
      }
      SinkStep(r, i, j);
      r, i := Swap(r, i, j), j;
    }
  }

  lemma {:induction false} RootIsLeast(h: seq<Entry>, k: nat)
    requires HeapOrdered(h) && k < |h|
    ensures Before(h[0], h[k])
  {
    if k > 0 {
      RootIsLeast(h, Parent(k));
      assert Before(h[Parent(k)], h[k]);
    }
  }

  // heap.Pop: swap the root with the last entry, sift down, cut off the last.
  // The entry taken is least in (priority, submission number).
  method Pop(h: seq<Entry>) returns (e: Entry, r: seq<Entry>)
    requires HeapOrdered(h) && h != []
    ensures HeapOrdered(r) && multiset(r) + multiset{e} == multiset(h)
    ensures forall x :: x in h ==> Before(e, x)
    ensures forall x :: x in h ==> e.priority < x.priority || (e.priority == x.priority && e.seqNo <= x.seqNo)
  {
    var n := |h| - 1;
    var swapped := Swap(h, 0, n);
    e := swapped[n];
    RestSinks(h);
    r := SiftDown(swapped[..n]);
    assert swapped == swapped[..n] + [e];
    forall x | x in h
      ensures Before(e, x)
    {
      var k :| 0 <= k < |h| && h[k] == x;
      RootIsLeast(h, k);
    }
  }

  lemma RestSinks(h: seq<Entry>)
    requires HeapOrdered(h) && h != []
    ensures SinkingAt(Swap(h, 0, |h| - 1)[..|h| - 1], 0)
  {
    var n := |h| - 1;
    var rest := Swap(h, 0, n)[..n];
    assert forall k :: 0 < k < n ==> rest[k] == h[k];
  }
}
