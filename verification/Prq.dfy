/** The priority queue (src/kernel/src/ds/priority_queue.c): a binary heap of node pointers, 1-based, each node knowing its place. */
module Prq {

  // ---- heap order, on the priorities alone (index 0 is unused) ----

  ghost predicate Ordered(ks: seq<int>) {
    forall i :: 2 <= i < |ks| ==> ks[i / 2] <= ks[i]
  }

  /** The parent of x is not above x's children. */
  ghost predicate Bridge(ks: seq<int>, x: int) {
    2 <= x < |ks| ==> forall i :: 2 <= i < |ks| && i / 2 == x ==> ks[x / 2] <= ks[i]
  }

  /** In order except that x may be too small for its parent or too large for its children. */
  ghost predicate Around(ks: seq<int>, x: int) {
    && (forall i :: 2 <= i < |ks| && i != x && i / 2 != x ==> ks[i / 2] <= ks[i])
    && Bridge(ks, x)
  }

  /** In order except that x may be too large for its children. */
  ghost predicate Below(ks: seq<int>, x: int) {
    && (forall i :: 2 <= i < |ks| && i / 2 != x ==> ks[i / 2] <= ks[i])
    && Bridge(ks, x)
  }

  ghost function Swapped(ks: seq<int>, i: int, j: int): seq<int>
    requires 0 <= i < |ks| && 0 <= j < |ks|
  {
    ks[i := ks[j]][j := ks[i]]
  }

  /** Exchanging x with a larger parent mends x and leaves only the parent's place in doubt, upwards. */
  lemma StepUp(ks: seq<int>, x: int)
    requires 2 <= x < |ks| && ks[x] < ks[x / 2] && Around(ks, x)
    ensures Rising(Swapped(ks, x, x / 2), x / 2)
  {
  }

  /** In order except that x may be too small for its parent. */
  ghost predicate Rising(ks: seq<int>, x: int) {
    && (forall i :: 2 <= i < |ks| && i != x ==> ks[i / 2] <= ks[i])
    && Bridge(ks, x)
  }

  lemma StepUpAgain(ks: seq<int>, x: int)
    requires 2 <= x < |ks| && ks[x] < ks[x / 2] && Rising(ks, x)
    ensures Rising(Swapped(ks, x, x / 2), x / 2)
  {
  }

  ghost predicate LeastChild(ks: seq<int>, x: int, c: int) {
    1 <= x < c < |ks| && c / 2 == x && forall i :: 2 <= i < |ks| && i / 2 == x ==> ks[c] <= ks[i]
  }

  /** Exchanging x with its smaller child leaves only that child's place in doubt, downwards. */
  lemma StepDown(ks: seq<int>, x: int, c: int)
    requires LeastChild(ks, x, c) && ks[c] < ks[x] && Below(ks, x)
    ensures Below(Swapped(ks, x, c), c)
  {
  }

  /** The root is least. */
  lemma {:induction false} RootLeast(ks: seq<int>, i: int)
    requires Ordered(ks) && 1 <= i < |ks|
    ensures ks[1] <= ks[i]
    decreases i
  {
    if i > 1 { RootLeast(ks, i / 2); }
  }

  class Node<T> {
    var index: int
    var priority: int
    var data: T

    constructor (priority: int, data: T)
      ensures this.priority == priority && this.data == data && index == -1
    {
      this.index, this.priority, this.data := -1, priority, data;
    }
  }

  class Queue<T> {
    var heap: array<Node?<T>>
    var count: nat
    var heapSize: nat
    /** The nodes in the queue. */
    ghost var nodes: set<Node<T>>

    /** The first `count` places hold the nodes, one each, and every node knows its place. */
    ghost predicate Linked()
      reads this, heap, nodes
    {
      && heap.Length == heapSize && count < heapSize && |nodes| == count
      && (forall i :: 1 <= i <= count ==> heap[i] != null && heap[i] in nodes && heap[i].index == i)
      && (forall n :: n in nodes ==> 1 <= n.index <= count && heap[n.index] == n)
    }

    ghost predicate Keyed(ks: seq<int>)
      requires Linked()
      reads this, heap, nodes
    {
      |ks| == count + 1 && forall i :: 1 <= i <= count ==> heap[i].priority == ks[i]
    }

    ghost predicate Valid()
      reads this, heap, nodes
    {
      && Linked() && count + 1 < heapSize
      && (forall i :: 2 <= i <= count ==> heap[i / 2].priority <= heap[i].priority)
    }

    /** `prq_create_fixed` */
    constructor (n: nat)
      requires n >= 1
      ensures Valid() && nodes == {} && count == 0 && fresh(heap)
    {
      count, heapSize, nodes := 0, n + 1, {};
      heap := new Node?<T>[n + 1](_ => null);
    }

    /** heap[i] and heap[j] change places, and their nodes are told. */
    method Swap(i: nat, j: nat, ghost ks: seq<int>)
      requires Linked() && Keyed(ks) && 1 <= i <= count && 1 <= j <= count && i != j
      modifies heap, nodes`index
      ensures Linked() && Keyed(Swapped(ks, i, j))
    {
      var a, b := heap[i], heap[j];
      b.index := i;
      a.index := j;
      heap[i] := b;
      heap[j] := a;
    }

    /** The place just past the end still holds the node just removed, which is not too small for its parent. */
    ghost predicate Leftover(x: nat)
      requires Linked()
      reads this, heap, nodes, if x < heap.Length then {heap[x]} else {}
    {
      x == count + 1 < heapSize && heap[x] != null && (x > 1 ==> heap[x / 2].priority <= heap[x].priority)
    }

    /** `__prq_shift_up` */
    method ShiftUp(start: nat, ghost ks0: seq<int>) returns (ghost ks: seq<int>)
      requires Linked() && Keyed(ks0)
      requires (1 <= start <= count && Around(ks0, start)) || (Leftover(start) && Ordered(ks0))
      modifies heap, nodes`index
      ensures Linked() && Keyed(ks) && Below(ks, start)
    {
      hide Around, Below, Rising, Ordered;
      ks := ks0;
      var idx := start;
      while idx > 1 && heap[idx].priority < heap[idx / 2].priority
        invariant 1 <= idx <= start <= count + 1 && Linked() && Keyed(ks)
        invariant start == count + 1 ==> idx == start && Leftover(start) && Ordered(ks)
        invariant start <= count ==> if idx == start then Around(ks, start) else Rising(ks, idx)
      {
        if idx == start { StepUp(ks, idx); } else { StepUpAgain(ks, idx); }
        Swap(idx, idx / 2, ks);
        ks := Swapped(ks, idx, idx / 2);
        idx := idx / 2;
      }
      if start == count + 1 { PastEnd(ks, start); } else if idx == start { UpDone(ks, start); } else { Risen(ks, idx, start); }
    }

    method LesserOf(idx: nat, ghost ks: seq<int>) returns (child: nat)
      requires Linked() && Keyed(ks) && 1 <= idx && idx * 2 <= count
      ensures child <= count && LeastChild(ks, idx, child)
    {
      hide LeastChild;
      child := idx * 2;
      if child < count && heap[child].priority > heap[child + 1].priority { child := child + 1; }
      LesserChild(ks, idx, child);
    }

    /** `__prq_shift_down` */
    method ShiftDown(start: nat, ghost ks0: seq<int>) returns (ghost ks: seq<int>)
      requires Linked() && Keyed(ks0) && 1 <= start && Below(ks0, start)
      modifies heap, nodes`index
      ensures Linked() && Keyed(ks) && Ordered(ks)
    {
      hide Below, Ordered, LeastChild;
      ks := ks0;
      var idx := start;
      while true
        invariant 1 <= idx && Linked() && Keyed(ks) && Below(ks, idx)
        decreases count - idx
      {
        if idx * 2 > count { NoChild(ks, idx); break; }
        var child := LesserOf(idx, ks);
        ChildAbove(ks, idx, child);
        if heap[child].priority < heap[idx].priority {
          StepDown(ks, idx, child);
          Swap(idx, child, ks);
          ks := Swapped(ks, idx, child);
          idx := child;
        } else {
          DownDone(ks, idx, child);
          break;
        }
      }
    }

    /** `prq_peek`: a node of least priority. */
    method Peek() returns (r: Node?<T>)
      requires Valid()
      ensures r == null <==> nodes == {}
      ensures r != null ==> r in nodes && heap.Length > 1 && r == heap[1] && forall n :: n in nodes ==> r.priority <= n.priority
    {
      ghost var ks := Opened();
      if count == 0 { return null; }
      RootIsLeast(ks);
      return heap[1];
    }

    ghost method KeysOf() returns (ks: seq<int>)
      requires Linked()
      ensures Keyed(ks)
    {
      ks := [0];
      for i := 1 to count + 1
        invariant |ks| == i && forall k :: 1 <= k < i ==> heap[k].priority == ks[k]
      {
        ks := ks + [heap[i].priority];
      }
    }
  
    ghost predicate Spare()
      reads this
    {
      count + 1 < heapSize
    }

    lemma Settled(ks: seq<int>)
      requires Linked() && Spare() && Keyed(ks) && Ordered(ks)
      ensures Valid()
    {
    }

    /** `__prq_amortize`: twice the room, same nodes. */
    method Amortize()
      requires Linked()
      modifies this`heap, this`heapSize
      ensures fresh(heap) && heapSize == 2 * old(heapSize) && Linked()
      ensures forall i :: 0 <= i <= count ==> heap[i] == old(heap[i])
    {
      var newSize := heapSize * 2;
      var bigger := new Node?<T>[newSize];
      for i := 0 to heapSize
        invariant heap.Length == heapSize && heap == old(heap) && count < heapSize
        invariant forall k :: 0 <= k < i ==> bigger[k] == heap[k]
        invariant unchanged(this) && unchanged(heap) && fresh(bigger)
      {
        bigger[i] := heap[i];
      }
      heap := bigger;
      heapSize := newSize;
    }

    /** The node goes to the first free place. */
    method Place(node: Node<T>, ghost ks: seq<int>)
      requires Linked() && Keyed(ks) && Spare() && node !in nodes
      modifies this`count, this`nodes, heap, node`index
      ensures Linked() && Keyed(ks + [node.priority]) && nodes == old(nodes) + {node} && count == old(count) + 1
    {
      Hook(node);
    }

    method Hook(node: Node<T>)
      requires Linked() && Spare() && node !in nodes
      modifies this`count, this`nodes, heap, node`index
      ensures Linked() && nodes == old(nodes) + {node} && count == old(count) + 1
      ensures forall i :: 1 <= i <= count ==> heap[i] == if i == count then node else old(heap[i])
    {
      node.index := count + 1;
      heap[count + 1] := node;
      count := count + 1;
      nodes := nodes + {node};
    }

    /** `prq_enqueue` */
    method Enqueue(node: Node<T>)
      requires Valid() && node !in nodes
      modifies this, heap, nodes`index, node`index
      ensures Valid() && nodes == old(nodes) + {node} && (fresh(heap) || heap == old(heap))
    {
      hide Ordered, Around, Below, Linked, Keyed, Valid;
      ghost var ks := Opened();
      Place(node, ks);
      LastPlace(ks, node.priority);
      ks := ShiftUp(count, ks + [node.priority]);
      Ended(ks);
      if count + 1 == heapSize {
        Widen(ks);
      }
      Settled(ks);
    }

    method Widen(ghost ks: seq<int>)
      requires Linked() && Keyed(ks)
      modifies this`heap, this`heapSize
      ensures fresh(heap) && Linked() && Keyed(ks) && Spare()
    {
      Amortize();
    }

    ghost method Opened() returns (ks: seq<int>)
      requires Valid()
      ensures Linked() && Spare() && Keyed(ks) && Ordered(ks) && |ks| == count + 1 && (count == 0 <==> nodes == {})
    {
      if count == 0 { EmptySet(nodes); }
      ks := KeysOf();
    }

    lemma Ended(ks: seq<int>)
      requires Linked() && Keyed(ks) && Below(ks, count)
      ensures Ordered(ks) && (count + 1 != heapSize ==> Spare())
    {
    }

    /** The last node takes the place of the first. */
    method TakeRoot(ghost ks: seq<int>) returns (top: Node<T>)
      requires Linked() && Keyed(ks) && count > 0
      modifies this`count, this`nodes, heap, nodes`index
      ensures Linked() && Keyed(RootGone(ks)) && count == old(count) - 1
      ensures top == old(heap[1]) && top in old(nodes) && nodes == old(nodes) - {top} && top.index == -1
    {
      top := heap[1];
      var end := heap[count];
      end.index := 1;
      top.index := -1;
      heap[1] := end;
      heap[count] := null;
      count := count - 1;
      nodes := nodes - {top};
    }

    lemma RootIsLeast(ks: seq<int>)
      requires Linked() && Keyed(ks) && Ordered(ks) && count > 0
      ensures heap[1] != null && forall n :: n in nodes ==> heap[1].priority <= n.priority
    {
      forall n | n in nodes ensures heap[1].priority <= n.priority { RootLeast(ks, n.index); }
    }

    /** `prq_dequeue`: takes a node of least priority. */
    method Dequeue() returns (top: Node?<T>)
      requires Valid()
      modifies this`count, this`nodes, heap, nodes`index
      ensures Valid() && (top == null <==> old(nodes) == {})
      ensures top == null ==> nodes == {}
      ensures top != null ==> top == old(heap[1]) && top in old(nodes) && nodes == old(nodes) - {top} && top.index == -1
      ensures top != null ==> forall n :: n in old(nodes) ==> top.priority <= n.priority
    {
      hide Ordered, Below, RootGone, Linked, Keyed, Valid;
      ghost var ks := Opened();
      if count == 0 { return null; }
      RootIsLeast(ks);
      top := TakeRoot(ks);
      RootReplaced(ks);
      ks := ShiftDown(1, RootGone(ks));
      Settled(ks);
    }
  
    /** Lines 107 to 115: the last node takes the place of the removed one. */
    method Detach(node: Node<T>, ghost ks: seq<int>) returns (index: nat)
      requires Linked() && Spare() && Keyed(ks) && node in nodes
      modifies this`count, this`nodes, heap, nodes`index
      ensures index == old(node.index) && 1 <= index <= old(count) && Linked() && Spare() && Keyed(PlaceGone(ks, index))
      ensures count == old(count) - 1 && nodes == old(nodes) - {node} && node.index == -1
      ensures index < |ks| && node.priority == ks[index] && (index == count + 1 ==> heap[index] == node)
    {
      hide PlaceGone;
      PlaceGoneAt(ks, node.index);
      index := Unhook(node);
    }

    /** The stores of those lines. */
    method Unhook(node: Node<T>) returns (index: nat)
      requires Linked() && Spare() && node in nodes
      modifies this`count, this`nodes, heap, nodes`index
      ensures index == old(node.index) && 1 <= index <= old(count) && Linked() && Spare()
      ensures count == old(count) - 1 && nodes == old(nodes) - {node} && node.index == -1
      ensures forall i :: 1 <= i <= count ==> heap[i] == if i == index then old(heap[count]) else old(heap[i])
      ensures index == count + 1 ==> heap[index] == node
    {
      var end := heap[count];
      index := node.index;
      end.index := node.index;
      node.index := -1;
      heap[index] := end;
      heap[count + 1] := null;
      count := count - 1;
      nodes := nodes - {node};
      assert forall i :: 1 <= i <= count && i != index ==> heap[i] == old(heap[i]) && heap[i] != node && heap[i] != end;
      assert index <= count ==> heap[index] == end && end != node;
    }

    lemma LastLeft(ks: seq<int>, x: nat, node: Node<T>)
      requires Linked() && Spare() && 1 <= x < |ks| && Keyed(PlaceGone(ks, x)) && Ordered(ks) && x == count + 1 == |ks| - 1
      requires heap[x] == node && node.priority == ks[x]
      ensures Leftover(x)
    {
    }

    /** `prq_remove`. A node that is in no queue has index -1; removing it spoils the index of the last node, so the queue survives
        exactly when the node is there or the queue is empty. */
    method Remove(node: Node<T>)
      requires Valid() && (node in nodes || node.index == -1)
      modifies this`count, this`nodes, heap, nodes`index
      ensures Valid() <==> old(node in nodes || count == 0)
      ensures old(node in nodes) ==> nodes == old(nodes) - {node} && node.index == -1
      ensures old(node !in nodes) ==> nodes == old(nodes) && count == old(count)
      ensures old(node !in nodes && count > 0) ==> count < heap.Length && heap[count] != null && heap[count].index == -1
    {
      hide Ordered, Below, Around, PlaceGone, Keyed;
      ghost var ks := Opened();
      if count == 0 { return; }
      if node.index == -1 {
        heap[count].index := -1;
        return;
      }
      hide Linked, Valid;
      var index := Detach(node, ks);
      PlaceRefilled(ks, index);
      if index == count + 1 { LastLeft(ks, index, node); }
      ks := ShiftUp(index, PlaceGone(ks, index));
      ks := ShiftDown(index, ks);
      Settled(ks);
    }
  }

  /** Dequeuing until the queue is empty yields every node once, in ascending priority. */
  method Drain<T>(q: Queue<T>) returns (out: seq<Node<T>>)
    requires q.Valid()
    modifies q, q.heap, q.nodes
    ensures q.Valid() && q.nodes == {}
    ensures |out| == old(|q.nodes|) && forall n :: n in old(q.nodes) <==> n in out
    ensures forall i, j :: 0 <= i < j < |out| ==> out[i] != out[j] && out[i].priority <= out[j].priority
    ensures forall n :: n in old(q.nodes) ==> n.priority == old(n.priority)
  {
    out := [];
    ghost var all := q.nodes;
    while q.count > 0
      invariant q.Valid() && q.heap == old(q.heap) && q.nodes <= all
      invariant |out| + |q.nodes| == |all|
      invariant forall n :: n in all <==> n in out || n in q.nodes
      invariant forall i :: 0 <= i < |out| ==> out[i] !in q.nodes && forall n :: n in q.nodes ==> out[i].priority <= n.priority
      invariant forall i, j :: 0 <= i < j < |out| ==> out[i] != out[j] && out[i].priority <= out[j].priority
      invariant forall n :: n in all ==> n.priority == old(n.priority)
      decreases |q.nodes|
    {
      hide q.Linked;
      var top := q.Dequeue();
      out := out + [top];
    }
    EmptySet(q.nodes);
  }

  /** Removing a node a second time from a queue that is not empty destroys the queue. */
  method RemovedTwice<T>(x: T) returns (q: Queue<T>)
    ensures fresh(q) && |q.nodes| == 1 && !q.Valid()
  {
    q := new Queue(10);
    var a := new Node(1, x);
    var b := new Node(2, x);
    q.Enqueue(a);
    q.Enqueue(b);
    q.Remove(a);
    assert q.nodes == {b};
    q.Remove(a);
  }

  /** The priorities once the last node has taken the root's place. */
  ghost function RootGone(ks: seq<int>): seq<int>
    requires |ks| >= 2
  {
    if |ks| == 2 then ks[..1] else ks[..|ks| - 1][1 := ks[|ks| - 1]]
  }

  lemma RootReplaced(ks: seq<int>)
    requires Ordered(ks) && |ks| >= 2
    ensures Below(RootGone(ks), 1)
  {
  }

  /** The priorities once the last node has taken the place x. */
  ghost function PlaceGone(ks: seq<int>, x: nat): seq<int>
    requires 1 <= x < |ks|
  {
    if x == |ks| - 1 then ks[..x] else ks[..|ks| - 1][x := ks[|ks| - 1]]
  }

  lemma PlaceGoneAt(ks: seq<int>, x: nat)
    requires 1 <= x < |ks|
    ensures |PlaceGone(ks, x)| == |ks| - 1
    ensures forall i :: 0 <= i < |ks| - 1 ==> PlaceGone(ks, x)[i] == if i == x then ks[|ks| - 1] else ks[i]
  {
  }

  lemma PlaceRefilled(ks: seq<int>, x: nat)
    requires Ordered(ks) && 1 <= x < |ks|
    ensures if x == |ks| - 1 then Ordered(PlaceGone(ks, x)) else Around(PlaceGone(ks, x), x)
  {
  }

  /** A new last place can only be too small for its parent. */
  lemma LastPlace(ks: seq<int>, x: int)
    requires |ks| >= 1 && Ordered(ks)
    ensures Around(ks + [x], |ks|)
  {
  }

  lemma EmptySet<T>(s: set<T>)
    requires |s| == 0
    ensures s == {}
  {
  }

  lemma ChildAbove(ks: seq<int>, x: int, c: int)
    requires LeastChild(ks, x, c)
    ensures 1 <= x < c < |ks|
  {
  }

  lemma NoChild(ks: seq<int>, x: int)
    requires Below(ks, x) && 2 * x >= |ks|
    ensures Ordered(ks)
  {
  }

  lemma LesserChild(ks: seq<int>, x: int, c: int)
    requires 1 <= x && x < c < |ks| && (c == 2 * x || c == 2 * x + 1)
    requires c == 2 * x && c + 1 < |ks| ==> ks[c] <= ks[c + 1]
    requires c == 2 * x + 1 ==> ks[c] <= ks[c - 1]
    ensures LeastChild(ks, x, c)
  {
  }

  lemma DownDone(ks: seq<int>, x: int, c: int)
    requires Below(ks, x) && LeastChild(ks, x, c) && ks[x] <= ks[c]
    ensures Ordered(ks)
  {
  }

  lemma PastEnd(ks: seq<int>, x: int)
    requires Ordered(ks) && x == |ks|
    ensures Below(ks, x)
  {
  }

  lemma UpDone(ks: seq<int>, x: int)
    requires Around(ks, x) && 1 <= x < |ks| && (x == 1 || ks[x / 2] <= ks[x])
    ensures Below(ks, x)
  {
  }

  lemma Risen(ks: seq<int>, x: int, y: int)
    requires Rising(ks, x) && 1 <= x < |ks| && (x == 1 || ks[x / 2] <= ks[x])
    ensures Ordered(ks) && Below(ks, y)
  {
  }
}
