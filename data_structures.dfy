/** The singly linked building blocks shared by the calculators: the term
    node and term list under the polynomial, and the generic linked Stack
    (undo history, operator stacks) and Queue (pending operations).

    Each list object keeps a ghost spine `nodes` (its nodes from the head in
    link order), the ghost abstract value `Contents` and the ghost footprint
    `Repr`; `Valid()` ties the real `head`/`next` pointers and node fields to
    them. */
module DataStructures {
  import opened Wrappers
  import opened PolyTerms

  /** A node of the polynomial term list. */
  class PolyNode {
    var coefficient: int
    var degree: nat
    var next: PolyNode?

    constructor (coefficient: int, degree: nat, next: PolyNode?)
      ensures this.coefficient == coefficient && this.degree == degree && this.next == next
    {
      this.coefficient := coefficient;
      this.degree := degree;
      this.next := next;
    }
  }

  /** The singly linked list of PolyNodes that a polynomial owns. */
  class LinkedList {
    var head: PolyNode?
    ghost var nodes: seq<PolyNode>
    ghost var Contents: seq<Term>
    ghost var Repr: set<object>

    ghost predicate Valid()
      reads this, Repr
    {
      && this in Repr
      && |nodes| == |Contents|
      && (forall i :: 0 <= i < |nodes| ==> nodes[i] in Repr)
      && (forall i, j :: 0 <= i < j < |nodes| ==> nodes[i] != nodes[j])
      && head == (if nodes == [] then null else nodes[0])
      && (forall i :: 0 <= i < |nodes| - 1 ==> nodes[i].next == nodes[i + 1])
      && (|nodes| > 0 ==> nodes[|nodes| - 1].next == null)
      && (forall i :: 0 <= i < |nodes| ==>
            nodes[i].coefficient == Contents[i].coef && nodes[i].degree == Contents[i].degree)
    }

    /** The last node, null for the empty list. */
    ghost function Last(): PolyNode?
      reads this
    {
      if nodes == [] then null else nodes[|nodes| - 1]
    }

    constructor ()
      ensures Valid() && fresh(Repr) && Contents == [] && nodes == []
    {
      head := null;
      nodes := [];
      Contents := [];
      Repr := {this};
    }

    /** Walks to the last node and links a new node after it. */
    method Append(coefficient: int, degree: nat)
      requires Valid()
      modifies Repr
      ensures Valid() && fresh(Repr - old(Repr))
      ensures Contents == old(Contents) + [Term(coefficient, degree)]
      ensures |nodes| == |old(nodes)| + 1 && nodes[..|old(nodes)|] == old(nodes)
      ensures fresh(nodes[|nodes| - 1])
    {
      var last: PolyNode? := null;
      if head != null {
        last := FindLast();
      }
      var n := LinkAt(last, null, |nodes|, coefficient, degree);
      assert nodes[..|old(nodes)|] == old(nodes);
    }

    /** The walk of append to the last node of a non-empty list. */
    method FindLast() returns (last: PolyNode)
      requires Valid() && head != null
      ensures last == nodes[|nodes| - 1]
    {
      last := head;
      ghost var i := 0;
      while last.next != null
        invariant 0 <= i < |nodes| && last == nodes[i]
        invariant last.next == if i + 1 < |nodes| then nodes[i + 1] else null
        decreases |nodes| - i
      {
        last := last.next;
        i := i + 1;
      }
    }

    /** Links a new node holding Term(coefficient, degree) in at position k:
        after prev (the head when prev is null) and in front of current. */
    method LinkAt(prev: PolyNode?, current: PolyNode?, ghost k: nat, coefficient: int, degree: nat)
      returns (n: PolyNode)
      requires Valid() && k <= |nodes|
      requires prev == if k == 0 then null else nodes[k - 1]
      requires current == if k < |nodes| then nodes[k] else null
      modifies Repr
      ensures Valid() && fresh(Repr - old(Repr))
      ensures |nodes| == |old(nodes)| + 1
      ensures nodes == old(nodes[..k]) + [n] + old(nodes[k..]) && fresh(n)
      ensures Contents == old(Contents[..k]) + [Term(coefficient, degree)] + old(Contents[k..])
    {
      ghost var ns := nodes;
      ghost var ts := Contents;
      assert forall j :: 0 <= j < |ns| - 1 ==> ns[j].next == ns[j + 1];
      n := new PolyNode(coefficient, degree, current);
      assert n !in Repr;
      if prev == null {
        head := n;
      } else {
        prev.next := n;
      }
      nodes := ns[..k] + [n] + ns[k..];
      Contents := ts[..k] + [Term(coefficient, degree)] + ts[k..];
      Repr := Repr + {n};
      SplicedIn(ns, ts, k, n);
    }

    /** The spine with n spliced in at position k satisfies Valid when the
        links around n are set and the other nodes are as they were. */
    lemma SplicedIn(ns: seq<PolyNode>, ts: seq<Term>, k: nat, n: PolyNode)
      requires |ns| == |ts| && k <= |ns|
      requires nodes == ns[..k] + [n] + ns[k..]
      requires Contents == ts[..k] + [Term(n.coefficient, n.degree)] + ts[k..]
      requires this in Repr && n in Repr && forall j :: 0 <= j < |ns| ==> ns[j] in Repr
      requires forall i, j :: 0 <= i < j < |ns| ==> ns[i] != ns[j]
      requires forall j :: 0 <= j < |ns| ==> ns[j] != n
      requires head == nodes[0]
      requires forall j :: 0 <= j < |ns| - 1 && j != k - 1 ==> ns[j].next == ns[j + 1]
      requires k > 0 ==> ns[k - 1].next == n
      requires n.next == if k < |ns| then ns[k] else null
      requires k < |ns| ==> ns[|ns| - 1].next == null
      requires forall j :: 0 <= j < |ns| ==> ns[j].coefficient == ts[j].coef && ns[j].degree == ts[j].degree
      ensures Valid()
    {
      assert forall j :: 0 <= j < |nodes| ==> nodes[j] == (if j < k then ns[j] else if j == k then n else ns[j - 1]);
      assert forall j :: 0 <= j < |nodes| ==> Contents[j] == (if j < k then ts[j] else if j == k then Term(n.coefficient, n.degree) else ts[j - 1]);
      assert forall i :: 0 <= i < |nodes| - 1 ==> nodes[i].next == nodes[i + 1];
    }
    /** Unlinks the node at position k: its predecessor prev (or the head
        pointer when prev is null) skips to its successor. */
    method UnlinkAt(prev: PolyNode?, current: PolyNode, ghost k: nat)
      requires Valid() && k < |nodes|
      requires prev == if k == 0 then null else nodes[k - 1]
      requires current == nodes[k]
      modifies Repr
      ensures Valid() && Repr == old(Repr)
      ensures nodes == old(nodes[..k]) + old(nodes[k + 1..])
      ensures Contents == old(Contents[..k]) + old(Contents[k + 1..])
    {
      ghost var ns, ts := nodes, Contents;
      assert forall j :: 0 <= j < |ns| - 1 ==> ns[j].next == ns[j + 1];
      var after := current.next;
      if prev == null {
        head := after;
      } else {
        prev.next := after;
      }
      nodes := ns[..k] + ns[k + 1..];
      Contents := ts[..k] + ts[k + 1..];
      SplicedOut(ns, ts, k);
    }

    /** The spine with position k cut out satisfies Valid when its
        predecessor (or head) points past it and the other nodes are as they
        were. */
    lemma SplicedOut(ns: seq<PolyNode>, ts: seq<Term>, k: nat)
      requires |ns| == |ts| && k < |ns|
      requires nodes == ns[..k] + ns[k + 1..]
      requires Contents == ts[..k] + ts[k + 1..]
      requires this in Repr && forall j :: 0 <= j < |ns| ==> ns[j] in Repr
      requires forall i, j :: 0 <= i < j < |ns| ==> ns[i] != ns[j]
      requires forall j :: 0 <= j < |ns| - 1 && j != k - 1 ==> ns[j].next == ns[j + 1]
      requires k > 0 ==> ns[k - 1].next == if k + 1 < |ns| then ns[k + 1] else null
      requires k == 0 ==> head == if 1 < |ns| then ns[1] else null
      requires k > 0 ==> head == ns[0]
      requires k + 1 < |ns| ==> ns[|ns| - 1].next == null
      requires forall j :: 0 <= j < |ns| ==> ns[j].coefficient == ts[j].coef && ns[j].degree == ts[j].degree
      ensures Valid()
    {
      assert forall j :: 0 <= j < |nodes| ==> nodes[j] == (if j < k then ns[j] else ns[j + 1]);
      assert forall j :: 0 <= j < |nodes| ==> Contents[j] == (if j < k then ts[j] else ts[j + 1]);
    }

    /** Adds c to the coefficient of the node at position k. */
    method AddToCoefficientAt(current: PolyNode, ghost k: nat, c: int)
      requires Valid() && k < |nodes| && current == nodes[k]
      modifies this, current
      ensures Valid() && nodes == old(nodes) && Repr == old(Repr)
      ensures Contents == old(Contents)[k := Term(old(Contents[k].coef) + c, old(Contents[k].degree))]
    {
      current.coefficient := current.coefficient + c;
      Contents := Contents[k := Term(current.coefficient, current.degree)];
    }

    /** Takes ns, whose links and fields are already set, as the spine
        holding ts. */
    method Adopt(ghost ns: seq<PolyNode>, ghost ts: seq<Term>)
      requires this in Repr && |ns| == |ts|
      requires forall i :: 0 <= i < |ns| ==> ns[i] in Repr
      requires forall i, j :: 0 <= i < j < |ns| ==> ns[i] != ns[j]
      requires head == (if ns == [] then null else ns[0])
      requires forall i :: 0 <= i < |ns| - 1 ==> ns[i].next == ns[i + 1]
      requires |ns| > 0 ==> ns[|ns| - 1].next == null
      requires forall i :: 0 <= i < |ns| ==>
        ns[i].coefficient == ts[i].coef && ns[i].degree == ts[i].degree
      modifies this
      ensures Valid() && nodes == ns && Contents == ts && Repr == old(Repr) && head == old(head)
    {
      nodes := ns;
      Contents := ts;
    }

    /** Relinks the list's own nodes in the order of sorted: head is the
        first, each node's next the one after it, the last one's next null. */
    method Relink(sorted: seq<PolyNode>)
      requires Valid() && sorted != [] && |sorted| == |nodes|
      requires forall j :: 0 <= j < |sorted| ==> sorted[j] in nodes
      requires forall i, j :: 0 <= i < j < |sorted| ==> sorted[i] != sorted[j]
      modifies Repr
      ensures Valid() && Repr == old(Repr)
      ensures nodes == sorted && Contents == old(NodeTerms(sorted))
    {
      ghost var target := NodeTerms(sorted);
      assert forall j :: 0 <= j < |sorted| ==> sorted[j] in Repr;
      head := sorted[0];
      LinkChain(sorted);
      assert forall j :: 0 <= j < |sorted| ==>
        sorted[j].coefficient == target[j].coef && sorted[j].degree == target[j].degree;
      Adopt(sorted, target);
    }
  }

  /** Sets every node's next to the node after it in sorted, and the last
      one's to null; nothing else about the nodes changes. */
  method LinkChain(sorted: seq<PolyNode>)
    requires sorted != []
    requires forall i, j :: 0 <= i < j < |sorted| ==> sorted[i] != sorted[j]
    modifies set j | 0 <= j < |sorted| :: sorted[j]`next
    ensures forall j :: 0 <= j < |sorted| - 1 ==> sorted[j].next == sorted[j + 1]
    ensures sorted[|sorted| - 1].next == null
  {
    var current := sorted[0];
    for i := 1 to |sorted|
      invariant current == sorted[i - 1]
      invariant forall j :: 0 <= j < i - 1 ==> sorted[j].next == sorted[j + 1]
    {
      current.next := sorted[i];
      current := current.next;
    }
    current.next := null;
  }

  /** The terms held by a sequence of nodes, in order. */
  ghost function NodeTerms(ns: seq<PolyNode>): (ts: seq<Term>)
    reads ns
    ensures |ts| == |ns|
    ensures forall i :: 0 <= i < |ns| ==> ts[i] == Term(ns[i].coefficient, ns[i].degree)
  {
    if ns == [] then [] else [Term(ns[0].coefficient, ns[0].degree)] + NodeTerms(ns[1..])
  }

  /** A node of the generic Stack and Queue. */
  class Node<T> {
    var value: T
    var next: Node?<T>

    constructor (value: T, next: Node?<T>)
      ensures this.value == value && this.next == next
    {
      this.value := value;
      this.next := next;
    }
  }

  /** LIFO stack; Contents lists the values from the top down. */
  class Stack<T> {
    var head: Node?<T>
    ghost var nodes: seq<Node<T>>
    ghost var Contents: seq<T>
    ghost var Repr: set<object>

    ghost predicate Valid()
      reads this, Repr
    {
      && this in Repr
      && |nodes| == |Contents|
      && (forall i :: 0 <= i < |nodes| ==> nodes[i] in Repr)
      && head == (if nodes == [] then null else nodes[0])
      && (forall i :: 0 <= i < |nodes| - 1 ==> nodes[i].next == nodes[i + 1])
      && (|nodes| > 0 ==> nodes[|nodes| - 1].next == null)
      && (forall i :: 0 <= i < |nodes| ==> nodes[i].value == Contents[i])
    }

    constructor ()
      ensures Valid() && fresh(Repr) && Contents == []
    {
      head := null;
      nodes := [];
      Contents := [];
      Repr := {this};
    }

    /** is_empty: the head pointer is None exactly when nothing is stored. */
    predicate IsEmpty()
      requires Valid()
      reads this, Repr
      ensures IsEmpty() <==> Contents == []
    {
      head == null
    }

    method Push(value: T)
      requires Valid()
      modifies this
      ensures Valid() && fresh(Repr - old(Repr))
      ensures Contents == [value] + old(Contents)
    {
      var node := new Node(value, head);
      ghost var oldNodes := nodes;
      head := node;
      nodes := [node] + nodes;
      Contents := [value] + Contents;
      Repr := Repr + {node};
      assert forall i :: 1 <= i < |nodes| ==> nodes[i] == oldNodes[i - 1];
    }

    /** Removes and returns the top value; None (and no change) when empty. */
    method Pop() returns (r: Option<T>)
      requires Valid()
      modifies this
      ensures Valid() && Repr == old(Repr)
      ensures old(Contents) == [] ==> r == None && Contents == []
      ensures old(Contents) != [] ==> r == Some(old(Contents)[0]) && Contents == old(Contents)[1..]
    {
      if head == null {
        return None;
      }
      r := Some(head.value);
      ghost var oldNodes := nodes;
      head := head.next;
      nodes := nodes[1..];
      Contents := Contents[1..];
      assert forall i :: 0 <= i < |nodes| ==> nodes[i] == oldNodes[i + 1];
    }

    /** The top value without removing it; None when empty. */
    method Peek() returns (r: Option<T>)
      requires Valid()
      ensures r == if Contents == [] then None else Some(Contents[0])
    {
      if head == null {
        return None;
      }
      return Some(head.value);
    }

    /** Counts the nodes by walking from the head. */
    method Size() returns (count: nat)
      requires Valid()
      ensures count == |Contents|
    {
      count := 0;
      var current := head;
      while current != null
        invariant Valid()
        invariant count <= |nodes|
        invariant current == if count < |nodes| then nodes[count] else null
        decreases |nodes| - count
      {
        count := count + 1;
        current := current.next;
      }
    }
  }

  /** FIFO queue with head and tail pointers; Contents lists the values from
      the front (head) to the back (tail). */
  class Queue<T> {
    var head: Node?<T>
    var tail: Node?<T>
    ghost var nodes: seq<Node<T>>
    ghost var Contents: seq<T>
    ghost var Repr: set<object>

    ghost predicate Valid()
      reads this, Repr
      ensures Valid() ==> (head == null <==> tail == null)
    {
      && this in Repr
      && |nodes| == |Contents|
      && (forall i :: 0 <= i < |nodes| ==> nodes[i] in Repr)
      && (forall i, j :: 0 <= i < j < |nodes| ==> nodes[i] != nodes[j])
      && head == (if nodes == [] then null else nodes[0])
      && tail == (if nodes == [] then null else nodes[|nodes| - 1])
      && (forall i :: 0 <= i < |nodes| - 1 ==> nodes[i].next == nodes[i + 1])
      && (|nodes| > 0 ==> nodes[|nodes| - 1].next == null)
      && (forall i :: 0 <= i < |nodes| ==> nodes[i].value == Contents[i])
    }

    constructor ()
      ensures Valid() && fresh(Repr) && Contents == []
    {
      head := null;
      tail := null;
      nodes := [];
      Contents := [];
      Repr := {this};
    }

    predicate IsEmpty()
      requires Valid()
      reads this, Repr
      ensures IsEmpty() <==> Contents == []
    {
      head == null
    }

    /** Links a new node after the tail; into an empty queue it becomes both
        head and tail. */
    method Enqueue(value: T)
      requires Valid()
      modifies Repr
      ensures Valid() && fresh(Repr - old(Repr))
      ensures Contents == old(Contents) + [value]
      ensures old(Contents) == [] ==> head == tail
    {
      var node := new Node(value, null);
      if tail != null {
        tail.next := node;
      }
      tail := node;
      if head == null {
        head := tail;
      }
      nodes := nodes + [node];
      Contents := Contents + [value];
      Repr := Repr + {node};
    }

    /** Removes and returns the front value; taking the last one resets the
        tail too. None (and no change) when empty. */
    method Dequeue() returns (r: Option<T>)
      requires Valid()
      modifies this
      ensures Valid() && Repr == old(Repr)
      ensures old(Contents) == [] ==> r == None && Contents == []
      ensures old(Contents) != [] ==> r == Some(old(Contents)[0]) && Contents == old(Contents)[1..]
      ensures Contents == [] ==> head == null && tail == null
    {
      if head == null {
        return None;
      }
      r := Some(head.value);
      ghost var oldNodes := nodes;
      head := head.next;
      if head == null {
        tail := null;
      }
      nodes := nodes[1..];
      Contents := Contents[1..];
      assert forall i :: 0 <= i < |nodes| ==> nodes[i] == oldNodes[i + 1];
    }

    method Peek() returns (r: Option<T>)
      requires Valid()
      ensures r == if Contents == [] then None else Some(Contents[0])
    {
      if head == null {
        return None;
      }
      return Some(head.value);
    }
  }

  /** push(v) followed by pop() returns v and leaves the stack as it was. */
  method StackPushPop<T>(s: Stack<T>, v: T) returns (r: Option<T>)
    requires s.Valid()
    modifies s
    ensures s.Valid()
    ensures r == Some(v) && s.Contents == old(s.Contents)
  {
    s.Push(v);
    r := s.Pop();
  }

  /** enqueue applied to each value of xs in turn. */
  method EnqueueAll<T>(q: Queue<T>, xs: seq<T>)
    requires q.Valid()
    modifies q.Repr
    ensures q.Valid() && fresh(q.Repr - old(q.Repr))
    ensures q.Contents == old(q.Contents) + xs
  {
    for i := 0 to |xs|
      invariant q.Valid() && fresh(q.Repr - old(q.Repr))
      invariant q.Contents == old(q.Contents) + xs[..i]
    {
      q.Enqueue(xs[i]);
    }
    assert xs[..|xs|] == xs;
  }

  /** dequeue until is_empty: the values come out from the front. */
  method Drain<T>(q: Queue<T>) returns (drained: seq<T>)
    requires q.Valid()
    modifies q
    ensures q.Valid() && q.Repr == old(q.Repr) && q.Contents == []
    ensures drained == old(q.Contents)
  {
    drained := [];
    while !q.IsEmpty()
      invariant q.Valid() && q.Repr == old(q.Repr)
      invariant drained + q.Contents == old(q.Contents)
      decreases |q.Contents|
    {
      var r := q.Dequeue();
      drained := drained + [r.value];
    }
  }

  /** Values leave the queue in the order they entered it: enqueueing xs
      and then dequeueing until the queue is empty yields what was queued
      before, followed by xs. */
  method QueueFifo<T>(q: Queue<T>, xs: seq<T>) returns (drained: seq<T>)
    requires q.Valid()
    modifies q.Repr
    ensures q.Valid() && q.Contents == []
    ensures drained == old(q.Contents) + xs
  {
    EnqueueAll(q, xs);
    drained := Drain(q);
  }
}
