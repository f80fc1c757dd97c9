/** The calculator state of Proy_Poli/pol_model.py (PolynomialModel): two
    operand polynomials, the result, an undo history of results and a queue
    of pending operations, each named by a string and carrying its
    arguments.

    The history keeps the terms of each saved result (the source keeps
    Polynomial objects there and only ever reads them through clone() and
    str()). The value-level Calculator record and the functions over it
    say what every method does to the whole state. */
module Calculator {
  import opened Wrappers
  import opened PolyTerms
  import opened PolyText
  import opened DataStructures
  import opened Polynomials

  /** An operation waiting in the queue: its name and its arguments. */
  datatype Operation = Operation(name: string, args: seq<int>)

  /** The abstract state of the calculator. */
  datatype State = State(
    poly1: seq<Term>,
    poly2: seq<Term>,
    result: seq<Term>,
    history: seq<seq<Term>>,
    queue: seq<Operation>)

  /** The result after one operation, or None when the operation raises
      (add_term without exactly two arguments, delete_term without any). */
  function Perform(op: Operation, st: State): (r: Option<State>)
    ensures r.Some? ==> r.value.poly1 == st.poly1 && r.value.poly2 == st.poly2
    ensures r.Some? ==> r.value.history == st.history && r.value.queue == st.queue
  {
    if op.name == "add" then Some(st.(result := Merge(st.poly1, st.poly2)))
    else if op.name == "subtract" then Some(st.(result := Sub(st.poly1, st.poly2)))
    else if op.name == "add_term" then
      if |op.args| == 2 && op.args[1] >= 0 then Some(st.(result := Insert(st.result, op.args[0], op.args[1])))
      else None
    else if op.name == "delete_term" then
      if |op.args| == 0 then None
      else if op.args[0] < 0 then Some(st)
      else Some(st.(result := Delete(st.result, op.args[0])))
    else if op.name == "sort_asc" then Some(st.(result := SortByDegree(st.result, true)))
    else if op.name == "sort_desc" then Some(st.(result := SortByDegree(st.result, false)))
    else Some(st)
  }

  /** process_queue: false on an empty queue; otherwise the first operation
      is dequeued and performed, and true is returned (Err when it raises,
      with the operation already dequeued). */
  function ProcessNext(st: State): (State, Result<bool, string>)
  {
    if st.queue == [] then (st, Ok(false))
    else
      var dequeued := st.(queue := st.queue[1..]);
      match Perform(st.queue[0], dequeued)
      case Some(next) => (next, Ok(true))
      case None => (dequeued, Err("malformed arguments"))
  }

  /** set_polynomials: the first text becomes poly1; the second, when
      given, becomes poly2. A text that does not parse raises: false comes
      back and what was set before it stays set. */
  function SetOperands(st: State, poly1Str: string, poly2Str: Option<string>): (State, bool)
  {
    match ParsePoly(poly1Str)
    case None => (st, false)
    case Some(p) =>
      var st1 := st.(poly1 := p);
      if poly2Str.None? then (st1, true)
      else match ParsePoly(poly2Str.value)
        case None => (st1, false)
        case Some(q) => (st1.(poly2 := q), true)
  }

  /** undo: pop the current entry; the result becomes a clone of the new
      top, or the zero polynomial when the history is then empty. Nothing
      changes on an empty history. */
  function AfterUndo(st: State): State
  {
    if st.history == [] then st
    else if st.history[1..] == [] then st.(history := [], result := [])
    else st.(history := st.history[1..], result := Rebuild(st.history[1]))
  }

  /** Undoing back to a saved canonical result restores exactly that
      result, and the history loses exactly one entry. */
  lemma UndoRestores(st: State)
    requires |st.history| >= 2 && Canonical(st.history[1])
    ensures AfterUndo(st).result == st.history[1]
    ensures AfterUndo(st).history == st.history[1..]
    ensures AfterUndo(st).poly1 == st.poly1 && AfterUndo(st).poly2 == st.poly2
  {
    RebuildIsCanonicalForm(st.history[1]);
  }

  /** Undo on a history with one entry leaves the zero polynomial and an
      empty history; on an empty history it changes nothing. */
  lemma UndoToZero(st: State)
    ensures |st.history| == 1 ==> AfterUndo(st).result == [] && AfterUndo(st).history == []
    ensures st.history == [] ==> AfterUndo(st) == st
  {
  }

  /** The queue is first in, first out: an operation enqueued behind
      others is performed only after all of them, and one enqueued on an
      empty queue is the next one processed. */
  lemma QueueInOrder(st: State, op: Operation)
    ensures st.queue == [] ==>
      var after := st.(queue := [op]);
      ProcessNext(after).0 == (match Perform(op, st) case Some(n) => n case None => st)
    ensures st.queue != [] ==>
      ProcessNext(st.(queue := st.queue + [op])).0.queue == st.queue[1..] + [op]
  {
    if st.queue != [] {
      var after := st.(queue := st.queue + [op]);
      assert after.queue[0] == st.queue[0];
      assert after.queue[1..] == st.queue[1..] + [op];
    } else {
      var after := st.(queue := [op]);
      assert after.queue[1..] == [];
      assert after.(queue := after.queue[1..]) == st;
    }
  }

  /** On canonical operands, the operations keep the result canonical. */
  lemma PerformCanonical(op: Operation, st: State)
    requires Canonical(st.poly1) && Canonical(st.poly2) && Canonical(st.result)
    requires Perform(op, st).Some?
    requires op.name != "sort_asc"
    ensures Canonical(Perform(op, st).value.result)
  {
    if op.name == "add" {
      MergeCanonical(st.poly1, st.poly2);
    } else if op.name == "subtract" {
      SubCanonical(st.poly1, st.poly2);
    } else if op.name == "add_term" {
      InsertCanonical(st.result, op.args[0], op.args[1]);
    } else if op.name == "delete_term" {
      if op.args[0] >= 0 {
        DeleteCanonical(st.result, op.args[0]);
      }
    } else if op.name == "sort_desc" {
      SortDescendingIdentity(st.result);
    }
  }

  /** The text of every polynomial on a history stack, walking its nodes
      from the top. */
  method FormatStack(history: Stack<seq<Term>>) returns (items: seq<string>)
    requires history.Valid()
    ensures |items| == |history.Contents|
    ensures forall i :: 0 <= i < |items| ==> items[i] == Format(history.Contents[i])
  {
    items := [];
    var current := history.head;
    while current != null
      invariant |items| <= |history.nodes|
      invariant current == if |items| < |history.nodes| then history.nodes[|items|] else null
      invariant forall i :: 0 <= i < |items| ==> items[i] == Format(history.Contents[i])
      decreases |history.nodes| - |items|
    {
      items := items + [Format(current.value)];
      current := current.next;
    }
  }

  class PolynomialModel {
    var poly1: Polynomial
    var poly2: Polynomial
    var result: Polynomial
    var history: Stack<seq<Term>>
    var operationsQueue: Queue<Operation>
    ghost var Repr: set<object>

    ghost predicate Valid()
      reads this, Repr
    {
      && this in Repr
      && poly1 in Repr && poly1.Repr <= Repr && this !in poly1.Repr && poly1.Valid()
      && poly2 in Repr && poly2.Repr <= Repr && this !in poly2.Repr && poly2.Valid()
      && result in Repr && result.Repr <= Repr && this !in result.Repr && result.Valid()
      && history in Repr && history.Repr <= Repr && this !in history.Repr && history.Valid()
      && operationsQueue in Repr && operationsQueue.Repr <= Repr && this !in operationsQueue.Repr
      && operationsQueue.Valid()
      && poly1.Repr !! poly2.Repr && poly1.Repr !! result.Repr && poly2.Repr !! result.Repr
      && history.Repr !! poly1.Repr && history.Repr !! poly2.Repr && history.Repr !! result.Repr
      && operationsQueue.Repr !! poly1.Repr && operationsQueue.Repr !! poly2.Repr
      && operationsQueue.Repr !! result.Repr && operationsQueue.Repr !! history.Repr
    }

    /** The whole state as a value. */
    ghost function Abstract(): State
      reads this, Repr
      requires Valid()
    {
      State(poly1.Terms(), poly2.Terms(), result.Terms(), history.Contents, operationsQueue.Contents)
    }

    /** Three zero polynomials, an empty queue, and a history holding the
        zero polynomial. */
    constructor ()
      ensures Valid()
      ensures Abstract() == State([], [], [], [[]], [])
    {
      var p1, p2, r := ZeroOperands();
      var h, q := InitialStores();
      poly1, poly2, result, history, operationsQueue := p1, p2, r, h, q;
      Repr := {this} + p1.Repr + p2.Repr + r.Repr + h.Repr + q.Repr;
    }

    /** The two operands and the result, all zero, in separate footprints. */
    static method ZeroOperands() returns (p1: Polynomial, p2: Polynomial, r: Polynomial)
      ensures p1.Valid() && p2.Valid() && r.Valid()
      ensures p1.Terms() == [] && p2.Terms() == [] && r.Terms() == []
      ensures fresh(p1.Repr) && fresh(p2.Repr) && fresh(r.Repr)
      ensures p1.Repr !! p2.Repr && p1.Repr !! r.Repr && p2.Repr !! r.Repr
    {
      p1 := new Polynomial();
      p2 := new Polynomial();
      r := new Polynomial();
    }

    /** A history holding the zero polynomial and an empty queue. */
    static method InitialStores() returns (h: Stack<seq<Term>>, q: Queue<Operation>)
      ensures h.Valid() && q.Valid() && h.Contents == [[]] && q.Contents == []
      ensures fresh(h.Repr) && fresh(q.Repr) && h.Repr !! q.Repr
    {
      h := new Stack();
      h.Push([]);
      q := new Queue();
    }

    /** set_polynomials. */
    method SetPolynomials(poly1Str: string, poly2Str: Option<string>) returns (ok: bool)
      requires Valid()
      modifies this
      ensures Valid()
      ensures (Abstract(), ok) == SetOperands(old(Abstract()), poly1Str, poly2Str)
    {
      ok := ParseInto1(poly1Str);
      if ok && poly2Str.Some? {
        ok := ParseInto2(poly2Str.value);
      }
    }

    /** The text, when it parses, becomes poly1; otherwise nothing changes. */
    method ParseInto1(polyStr: string) returns (ok: bool)
      requires Valid()
      modifies this
      ensures Valid()
      ensures ok == ParsePoly(polyStr).Some?
      ensures Abstract() == if ok then old(Abstract()).(poly1 := ParsePoly(polyStr).value) else old(Abstract())
    {
      var p := Polynomial.ParsePolynomial(polyStr);
      if p == null {
        return false;
      }
      SetPoly1(p);
      ok := true;
    }

    /** The text, when it parses, becomes poly2; otherwise nothing changes. */
    method ParseInto2(polyStr: string) returns (ok: bool)
      requires Valid()
      modifies this
      ensures Valid()
      ensures ok == ParsePoly(polyStr).Some?
      ensures Abstract() == if ok then old(Abstract()).(poly2 := ParsePoly(polyStr).value) else old(Abstract())
    {
      var p := Polynomial.ParsePolynomial(polyStr);
      if p == null {
        return false;
      }
      SetPoly2(p);
      ok := true;
    }

    method SetPoly1(p: Polynomial)
      requires Valid() && p.Valid() && p.Repr !! Repr
      modifies this
      ensures Valid() && Repr == old(Repr) + p.Repr
      ensures Abstract() == old(Abstract()).(poly1 := p.Terms())
    {
      poly1 := p;
      Repr := Repr + p.Repr;
    }

    method SetPoly2(p: Polynomial)
      requires Valid() && p.Valid() && p.Repr !! Repr
      modifies this
      ensures Valid() && Repr == old(Repr) + p.Repr
      ensures Abstract() == old(Abstract()).(poly2 := p.Terms())
    {
      poly2 := p;
      Repr := Repr + p.Repr;
    }

    method SetResult(p: Polynomial)
      requires Valid() && p.Valid() && p.Repr !! Repr
      modifies this
      ensures Valid() && Repr == old(Repr) + p.Repr
      ensures Abstract() == old(Abstract()).(result := p.Terms())
    {
      result := p;
      Repr := Repr + p.Repr;
    }

    /** add_term_to_poly1. */
    method AddTermToPoly1(coeff: int, degree: nat)
      requires Valid()
      modifies Repr
      ensures Valid()
      ensures Abstract() == old(Abstract()).(poly1 := Insert(old(Abstract()).poly1, coeff, degree))
    {
      poly1.AddTerm(coeff, degree);
      Repr := Repr + poly1.Repr;
    }

    /** add: the result becomes poly1 + poly2. */
    method Add()
      requires Valid()
      modifies this
      ensures Valid()
      ensures Abstract() == old(Abstract()).(result := Merge(old(Abstract()).poly1, old(Abstract()).poly2))
    {
      var sum := poly1.Add(poly2);
      SetResult(sum);
    }

    /** subtract: the result becomes poly1 - poly2. */
    method Subtract()
      requires Valid()
      modifies this
      ensures Valid()
      ensures Abstract() == old(Abstract()).(result := Sub(old(Abstract()).poly1, old(Abstract()).poly2))
    {
      var difference := poly1.Subtract(poly2);
      SetResult(difference);
    }

    /** undo. */
    method Undo()
      requires Valid()
      modifies this, history
      ensures Valid()
      ensures Abstract() == AfterUndo(old(Abstract()))
    {
      if !history.IsEmpty() {
        PopHistory();
        RestoreResult();
      }
    }

    /** The result becomes a copy of the top of the history, or the zero
        polynomial when the history is empty. */
    method RestoreResult()
      requires Valid()
      modifies this
      ensures Valid()
      ensures Abstract() == old(Abstract()).(result :=
        if old(Abstract()).history == [] then [] else Rebuild(old(Abstract()).history[0]))
    {
      var restored := Restored(history);
      SetResult(restored);
    }

    /** A fresh copy of the top of a history, or the zero polynomial. */
    static method Restored(h: Stack<seq<Term>>) returns (p: Polynomial)
      requires h.Valid()
      ensures p.Valid() && fresh(p.Repr)
      ensures p.Terms() == if h.Contents == [] then [] else Rebuild(h.Contents[0])
    {
      var top := h.Peek();
      if top.Some? {
        p := Polynomial.FromTerms(top.value);
      } else {
        p := new Polynomial();
      }
    }

    /** Drops the top of a non-empty history. */
    method PopHistory()
      requires Valid() && history.Contents != []
      modifies history
      ensures Valid() && Repr == old(Repr)
      ensures Abstract() == old(Abstract()).(history := old(Abstract()).history[1..])
    {
      var _ := history.Pop();
    }

    /** clear_history: a new empty history. */
    method ClearHistory()
      requires Valid()
      modifies this
      ensures Valid()
      ensures Abstract() == old(Abstract()).(history := [])
    {
      history := new Stack();
      Repr := Repr + history.Repr;
    }

    /** get_result_str: the text of the result. */
    method GetResultStr() returns (s: string)
      requires Valid()
      ensures s == Format(Abstract().result)
    {
      s := result.ToString();
    }

    /** get_history_list: the text of every saved result, from the top of
        the history down. */
    method GetHistoryList() returns (items: seq<string>)
      requires Valid()
      ensures |items| == |Abstract().history|
      ensures forall i :: 0 <= i < |items| ==> items[i] == Format(Abstract().history[i])
    {
      items := FormatStack(history);
    }

    /** enqueue_operation: the operation and its arguments join the back
        of the queue. */
    method EnqueueOperation(operationType: string, args: seq<int>)
      requires Valid()
      modifies Repr
      ensures Valid()
      ensures Abstract() == old(Abstract()).(queue := old(Abstract()).queue + [Operation(operationType, args)])
    {
      operationsQueue.Enqueue(Operation(operationType, args));
      Repr := Repr + operationsQueue.Repr;
    }

    /** process_queue. */
    method ProcessQueue() returns (r: Result<bool, string>)
      requires Valid()
      modifies Repr
      ensures Valid()
      ensures (Abstract(), r) == ProcessNext(old(Abstract()))
    {
      if operationsQueue.IsEmpty() {
        return Ok(false);
      }
      var op := DequeueOperation();
      var ok := Dispatch(op);
      r := if ok then Ok(true) else Err("malformed arguments");
    }

    /** Takes the first operation off a non-empty queue. */
    method DequeueOperation() returns (op: Operation)
      requires Valid() && operationsQueue.Contents != []
      modifies operationsQueue
      ensures Valid() && Repr == old(Repr)
      ensures op == old(Abstract()).queue[0]
      ensures Abstract() == old(Abstract()).(queue := old(Abstract()).queue[1..])
    {
      var front := operationsQueue.Dequeue();
      op := front.value;
    }

    /** Performs one dequeued operation; false when its arguments are
        malformed, and then nothing changes. */
    method Dispatch(op: Operation) returns (ok: bool)
      requires Valid()
      modifies Repr
      ensures Valid()
      ensures ok == Perform(op, old(Abstract())).Some?
      ensures Abstract() == if ok then Perform(op, old(Abstract())).value else old(Abstract())
    {
      ok := true;
      if op.name == "add" {
        Add();
      } else if op.name == "subtract" {
        Subtract();
      } else if op.name == "add_term" {
        if |op.args| != 2 || op.args[1] < 0 {
          return false;
        }
        AddTermToResult(op.args[0], op.args[1]);
      } else if op.name == "delete_term" {
        if |op.args| == 0 {
          return false;
        }
        if op.args[0] >= 0 {
          DeleteFromResult(op.args[0]);
        }
      } else if op.name == "sort_asc" {
        SortResult(true);
      } else if op.name == "sort_desc" {
        SortResult(false);
      }
    }

    /** The result gains a term. */
    method AddTermToResult(coeff: int, degree: nat)
      requires Valid()
      modifies Repr
      ensures Valid()
      ensures Abstract() == old(Abstract()).(result := Insert(old(Abstract()).result, coeff, degree))
    {
      result.AddTerm(coeff, degree);
      Repr := Repr + result.Repr;
    }

    /** The result loses its term of the degree, if it has one. */
    method DeleteFromResult(degree: nat)
      requires Valid()
      modifies Repr
      ensures Valid() && Repr == old(Repr)
      ensures Abstract() == old(Abstract()).(result := Delete(old(Abstract()).result, degree))
    {
      var _ := result.DeleteTerm(degree);
    }

    /** The terms of the result are reordered by degree. */
    method SortResult(ascending: bool)
      requires Valid()
      modifies Repr
      ensures Valid() && Repr == old(Repr)
      ensures Abstract() == old(Abstract()).(result := SortByDegree(old(Abstract()).result, ascending))
    {
      result.SortTerms(ascending);
    }
  }
}
