/** The figure carousel (Flet_Figuras): three figures kept in a circular
    doubly linked list, a cursor that moves forward and backward around the
    ring, and a palette that rotates by one colour every time the cursor
    completes a lap.

    The ring keeps a ghost spine `nodes` (the nodes from the head, following
    `next`) and a ghost footprint `Repr`; `Valid()` ties the real `next` and
    `prev` pointers to the spine. The model keeps the figures it created in
    the ghost sequence `figs` and the cursor's index on the spine in the
    ghost field `position`. */
module Figures {

  /** A figure: its shape is fixed, its colour is repainted in place. */
  class Figure {
    const shape: string
    var color: string

    constructor (shape: string, color: string)
      ensures this.shape == shape && this.color == color
    {
      this.shape := shape;
      this.color := color;
    }
  }

  /** A node of the ring; the figure it carries is never replaced. */
  class RingNode {
    const data: Figure
    var next: RingNode?
    var prev: RingNode?

    constructor (data: Figure)
      ensures this.data == data && next == null && prev == null
    {
      this.data := data;
      next := null;
      prev := null;
    }
  }

  /** The circular doubly linked list. */
  class CircularLinkedList {
    var head: RingNode?
    ghost var nodes: seq<RingNode>
    ghost var Repr: set<object>

    /** Following `next` from the head visits every node once and comes back
        to the head; `prev` runs the same ring backwards. */
    ghost predicate Valid()
      reads this, Repr
    {
      && this in Repr
      && (forall i :: 0 <= i < |nodes| ==> nodes[i] in Repr)
      && (forall i, j :: 0 <= i < j < |nodes| ==> nodes[i] != nodes[j])
      && head == (if nodes == [] then null else nodes[0])
      && (forall i :: 0 <= i < |nodes| - 1 ==> nodes[i].next == nodes[i + 1] && nodes[i + 1].prev == nodes[i])
      && (nodes != [] ==> nodes[|nodes| - 1].next == nodes[0] && nodes[0].prev == nodes[|nodes| - 1])
    }

    constructor ()
      ensures Valid() && fresh(Repr) && nodes == []
    {
      head := null;
      nodes := [];
      Repr := {this};
    }

    /** is_empty: there is no head exactly when the ring has no node. */
    predicate IsEmpty()
      requires Valid()
      reads this, Repr
      ensures IsEmpty() <==> nodes == []
    {
      head == null
    }

    /** insert: the first node is linked to itself; any later node goes
        between the last node and the head, so it becomes the last node and
        the head stays. */
    method Insert(data: Figure)
      requires Valid()
      modifies Repr
      ensures Valid() && |nodes| == |old(nodes)| + 1 && nodes[..|old(nodes)|] == old(nodes)
      ensures fresh(nodes[|nodes| - 1]) && nodes[|nodes| - 1].data == data
      ensures Repr == old(Repr) + {nodes[|nodes| - 1]}
    {
      var node := new RingNode(data);
      if IsEmpty() {
        head := node;
        head.next := head;
        head.prev := head;
      } else {
        var last := head.prev;
        last.next := node;
        node.prev := last;
        node.next := head;
        head.prev := node;
      }
      nodes := nodes + [node];
      Repr := Repr + {node};
    }

    /** get_nodes: walks `next` from the head until it is back at the head;
        the nodes met are the whole ring, in order, each once. */
    method GetNodes() returns (result: seq<RingNode>)
      requires Valid()
      ensures result == nodes
    {
      if IsEmpty() {
        return [];
      }
      result := [];
      var current := head;
      while true
        invariant |result| < |nodes| && result == nodes[..|result|] && current == nodes[|result|]
        decreases |nodes| - |result|
      {
        Successor(this, |result|);
        result := result + [current];
        current := current.next;
        AtHead(this, if |result| == |nodes| then 0 else |result|);
        if current == head {
          break;
        }
      }
      assert result == nodes[..|nodes|];
    }
  }

  /** The ring is a ring both ways: the node after any node has it as its
      predecessor, and the node before it has it as its successor. */
  lemma {:induction false} LinksAgree(l: CircularLinkedList, i: nat)
    requires l.Valid() && i < |l.nodes|
    ensures l.nodes[i].next != null && l.nodes[i].next.prev == l.nodes[i]
    ensures l.nodes[i].prev != null && l.nodes[i].prev.next == l.nodes[i]
  {
    var n := |l.nodes|;
    if i < n - 1 {
      assert l.nodes[i].next == l.nodes[i + 1];
    } else {
      assert l.nodes[i].next == l.nodes[0];
    }
    if i > 0 {
      assert l.nodes[i - 1].next == l.nodes[i];
    } else {
      assert l.nodes[i].prev == l.nodes[n - 1];
    }
  }

  /** The successor of node i is node i + 1, or the head after the last. */
  lemma Successor(l: CircularLinkedList, i: nat)
    requires l.Valid() && i < |l.nodes|
    ensures l.nodes[i].next == l.nodes[if i + 1 == |l.nodes| then 0 else i + 1]
  {
  }

  /** The predecessor of node i is node i - 1, or the last after the head. */
  lemma Predecessor(l: CircularLinkedList, i: nat)
    requires l.Valid() && i < |l.nodes|
    ensures l.nodes[i].prev == l.nodes[if i == 0 then |l.nodes| - 1 else i - 1]
  {
    if i > 0 {
      assert l.nodes[i - 1].next == l.nodes[i];
    }
  }

  /** Node i is the head exactly when i is 0. */
  lemma AtHead(l: CircularLinkedList, i: nat)
    requires l.Valid() && i < |l.nodes|
    ensures l.nodes[i] == l.head <==> i == 0
  {
  }

  // -----------------------------------------------------------------------
  // The palette

  /** ColorManager: the palette and its size. */
  datatype ColorManager = ColorManager(colors: seq<string>, numColors: nat)

  function NewColorManager(colors: seq<string>): (m: ColorManager)
    ensures m.colors == colors && m.numColors == |colors|
  {
    ColorManager(colors, |colors|)
  }

  /** get_color: the colour for the figure at `index` after `loopCount`
      laps. The source's `%` is Python's, which floors; for a positive
      palette size it agrees with Dafny's Euclidean `%`, including for a
      negative loop count. */
  function GetColor(m: ColorManager, index: int, loopCount: int): (c: string)
    requires 0 < m.numColors <= |m.colors|
    ensures c in m.colors
  {
    m.colors[(index + loopCount) % m.numColors]
  }

  /** Before any lap every figure gets the colour at its own index. */
  lemma FirstLap(m: ColorManager, i: nat)
    requires i < m.numColors <= |m.colors|
    ensures GetColor(m, i, 0) == m.colors[i]
  {
    DivModUnique(i, m.numColors, 0, i);
  }

  /** One more lap gives every figure the colour its successor had. */
  lemma ColorShift(m: ColorManager, index: int, loopCount: int)
    requires 0 < m.numColors <= |m.colors|
    ensures GetColor(m, index, loopCount + 1) == GetColor(m, index + 1, loopCount)
  {
    assert index + (loopCount + 1) == (index + 1) + loopCount;
  }

  /** As many laps as there are colours bring every colour back. */
  lemma ColorPeriodic(m: ColorManager, index: int, loopCount: int)
    requires 0 < m.numColors <= |m.colors|
    ensures GetColor(m, index, loopCount + m.numColors) == GetColor(m, index, loopCount)
  {
    var n := m.numColors;
    var x := index + loopCount;
    DivModUnique(x + n, n, x / n + 1, x % n);
  }

  /** Within one lap of the palette, figures at different positions get
      different slots of the palette. */
  lemma ColorsDiffer(m: ColorManager, i: nat, j: nat, loopCount: int)
    requires 0 < m.numColors <= |m.colors|
    requires i < j < m.numColors
    requires forall a, b :: 0 <= a < b < m.numColors ==> m.colors[a] != m.colors[b]
    ensures GetColor(m, i, loopCount) != GetColor(m, j, loopCount)
  {
    var n := m.numColors;
    var x := i + loopCount;
    var y := j + loopCount;
    // equal slots would make j - i, which lies strictly between 0 and n,
    // a multiple of n
    var q := y / n - x / n;
    assert x == (x / n) * n + x % n;
    assert y == (y / n) * n + y % n;
    assert y - x == q * n + (y % n - x % n) by {
      assert (y / n) * n - (x / n) * n == q * n;
    }
    MulBounds(q, n);
  }

  /** A non-zero multiple of n is at least n away from 0. */
  lemma {:induction false} MulBounds(q: int, n: int)
    requires n > 0
    ensures q >= 1 ==> q * n >= n
    ensures q <= -1 ==> q * n <= -n
    decreases if q < 0 then -q else q
  {
    if q > 1 {
      MulBounds(q - 1, n);
      assert q * n == (q - 1) * n + n;
    } else if q < -1 {
      MulBounds(q + 1, n);
      assert q * n == (q + 1) * n - n;
    }
  }

  /** Euclidean division is unique. */
  lemma DivModUnique(k: int, n: int, q: int, r: int)
    requires n > 0 && 0 <= r < n && k == q * n + r
    ensures k / n == q && k % n == r
  {
    var d := q - k / n;
    assert k == (k / n) * n + k % n;
    assert d * n == k % n - r by {
      assert q * n - (k / n) * n == d * n;
    }
    MulBounds(d, n);
  }

  // -----------------------------------------------------------------------
  // The cursor

  /** Where the cursor is (the index of current_node on the ring, counted
      from the head) and how many laps it has made. */
  datatype Cursor = Cursor(position: nat, loopCount: int)

  /** next_shape on a ring of n nodes: move to the successor and count a
      lap on arrival at the head. */
  function Next(c: Cursor, n: nat): (r: Cursor)
    requires c.position < n
    ensures r.position < n
  {
    var p := if c.position + 1 == n then 0 else c.position + 1;
    Cursor(p, if p == 0 then c.loopCount + 1 else c.loopCount)
  }

  /** prev_shape on a ring of n nodes: uncount a lap when leaving the head,
      then move to the predecessor. */
  function Prev(c: Cursor, n: nat): (r: Cursor)
    requires c.position < n
    ensures r.position < n
  {
    Cursor(if c.position == 0 then n - 1 else c.position - 1,
           if c.position == 0 then c.loopCount - 1 else c.loopCount)
  }

  /** The number of steps from the start that the cursor stands for. */
  function Steps(c: Cursor, n: nat): int
  {
    c.loopCount * n + c.position
  }

  /** next_shape is one step forward and prev_shape one step back. */
  lemma NextPrevSteps(c: Cursor, n: nat)
    requires c.position < n
    ensures Steps(Next(c, n), n) == Steps(c, n) + 1
    ensures Steps(Prev(c, n), n) == Steps(c, n) - 1
  {
    assert (c.loopCount + 1) * n == c.loopCount * n + n;
    assert (c.loopCount - 1) * n == c.loopCount * n - n;
  }

  /** A press of next followed by a press of prev, or the other way round,
      restores both the current node and the loop count. */
  lemma PrevUndoesNext(c: Cursor, n: nat)
    requires c.position < n
    ensures Prev(Next(c, n), n) == c
    ensures Next(Prev(c, n), n) == c
  {
  }

  /** k presses of next_shape. */
  function Advance(c: Cursor, n: nat, k: nat): (r: Cursor)
    requires c.position < n
    ensures r.position < n
    decreases k
  {
    if k == 0 then c else Next(Advance(c, n, k - 1), n)
  }

  /** After k presses of next_shape from the start the cursor is on node
      k mod n and has made k div n laps. */
  lemma {:induction false} AdvanceFromStart(n: nat, k: nat)
    requires n > 0
    ensures Advance(Cursor(0, 0), n, k) == Cursor(k % n, k / n)
  {
    if k > 0 {
      AdvanceFromStart(n, k - 1);
      var c := Advance(Cursor(0, 0), n, k - 1);
      NextPrevSteps(c, n);
      var r := Advance(Cursor(0, 0), n, k);
      assert Steps(c, n) == k - 1 by {
        assert c.loopCount * n + c.position == ((k - 1) / n) * n + (k - 1) % n;
      }
      DivModUnique(k, n, r.loopCount, r.position);
    }
  }

  // -----------------------------------------------------------------------
  // The model

  /** PoModel: the ring of figures, the palette, the loop count and the
      current node. */
  class PoModel {
    const figures: CircularLinkedList
    const colors: seq<string>
    const colorManager: ColorManager
    const shapes: seq<string>
    var loopCount: int
    var currentNode: RingNode?
    ghost const figs: seq<Figure>
    ghost var position: nat

    /** The ring holds one distinct figure per shape, in order. */
    ghost predicate Linked()
      reads figures, figures.Repr
    {
      && |shapes| == |colors| == 3
      && colorManager == NewColorManager(colors)
      && figures.Valid()
      && this !in figures.Repr
      && |figures.nodes| == |figs| == |shapes|
      && (forall i :: 0 <= i < |figs| ==> figures.nodes[i].data == figs[i] && figs[i] !in figures.Repr)
      && (forall i, j :: 0 <= i < j < |figs| ==> figs[i] != figs[j])
      && (forall i :: 0 <= i < |figs| ==> figs[i].shape == shapes[i])
    }

    /** After `laps` laps the figure at position i shows the colour i + laps
        places along the palette. */
    ghost predicate Painted(laps: int)
      requires |colors| == 3
      reads figs
    {
      forall i :: 0 <= i < |figs| ==> figs[i].color == colors[(i + laps) % 3]
    }

    ghost predicate Valid()
      reads this, figures, figures.Repr, figs
    {
      && Linked()
      && position < |figs|
      && currentNode == figures.nodes[position]
      && Painted(loopCount)
    }

    ghost function Where(): Cursor
      reads this
    {
      Cursor(position, loopCount)
    }

    /** The three figures, coloured red, green and blue, with the cursor on
        the first one. */
    constructor ()
      ensures Valid() && Where() == Cursor(0, 0)
      ensures colors == ["red", "green", "blue"] && shapes == ["circle", "triangle", "square"]
      ensures forall i :: 0 <= i < |figs| ==> figs[i].color == colors[i]
    {
      var ring := new CircularLinkedList();
      var palette := ["red", "green", "blue"];
      var manager := NewColorManager(palette);
      var names := ["circle", "triangle", "square"];
      ghost var created := InitializeFigures(ring, names, palette);
      forall i | 0 <= i < |created|
        ensures created[i].color == palette[(i + 0) % 3]
      {
        assert (i + 0) % 3 == i;
      }
      figures := ring;
      colors := palette;
      colorManager := manager;
      shapes := names;
      loopCount := 0;
      figs := created;
      position := 0;
      currentNode := ring.head;
    }

    /** _initialize_figures: one figure per shape, in the colour at the same
        index, inserted in order into the (empty) ring; `figs` are the new
        figures. */
    static method InitializeFigures(figures: CircularLinkedList, shapes: seq<string>, colors: seq<string>)
      returns (ghost figs: seq<Figure>)
      requires figures.Valid() && figures.nodes == [] && |shapes| <= |colors|
      modifies figures.Repr
      ensures figures.Valid() && fresh(figures.Repr - old(figures.Repr))
      ensures |figures.nodes| == |figs| == |shapes|
      ensures forall i :: 0 <= i < |figs| ==> figures.nodes[i].data == figs[i] && figs[i] !in figures.Repr
      ensures forall i, j :: 0 <= i < j < |figs| ==> figs[i] != figs[j]
      ensures forall i :: 0 <= i < |figs| ==> figs[i].shape == shapes[i] && figs[i].color == colors[i]
    {
      figs := [];
      for i := 0 to |shapes|
        invariant figures.Valid() && fresh(figures.Repr - old(figures.Repr))
        invariant |figures.nodes| == |figs| == i
        invariant forall k :: 0 <= k < i ==> figures.nodes[k].data == figs[k] && figs[k] !in figures.Repr
        invariant forall k, j :: 0 <= k < j < i ==> figs[k] != figs[j]
        invariant forall k :: 0 <= k < i ==> figs[k].shape == shapes[k] && figs[k].color == colors[k]
      {
        var figure := new Figure(shapes[i], colors[i]);
        figures.Insert(figure);
        figs := figs + [figure];
      }
    }

    /** _update_colors: repaints every figure on the ring for the current
        loop count. */
    method UpdateColors()
      requires Linked()
      modifies figs
      ensures Linked() && Painted(loopCount) && unchanged(this)
    {
      var nodes := figures.GetNodes();
      if |nodes| == 0 {
        return;
      }
      for i := 0 to |nodes|
        invariant forall k :: 0 <= k < i ==> figs[k].color == GetColor(colorManager, k, loopCount)
      {
        var color := GetColor(colorManager, i, loopCount);
        var figure := nodes[i].data;
        figure.color := color;
      }
    }

    /** next_shape: moves the cursor forward; arriving at the head counts a
        lap and repaints. */
    method NextShape()
      requires Valid()
      modifies this, figs
      ensures Valid() && Where() == Next(old(Where()), |figs|)
    {
      ghost var p := Next(Where(), |figs|).position;
      Successor(figures, position);
      AtHead(figures, p);
      if currentNode != null {
        currentNode := currentNode.next;
        position := p;
        if currentNode == figures.head {
          loopCount := loopCount + 1;
          UpdateColors();
        }
      }
    }

    /** prev_shape: leaving the head uncounts a lap; the cursor moves back
        and the figures are repainted. */
    method PrevShape()
      requires Valid()
      modifies this, figs
      ensures Valid() && Where() == Prev(old(Where()), |figs|)
    {
      ghost var p := Prev(Where(), |figs|).position;
      Predecessor(figures, position);
      AtHead(figures, position);
      if currentNode != null {
        if currentNode == figures.head {
          loopCount := loopCount - 1;
        }
        currentNode := currentNode.prev;
        position := p;
        UpdateColors();
      }
    }
  }
}
