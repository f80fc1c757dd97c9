/** LinkedPolynomial of the second calculator
    (polinomio_flet/model/linked_polynomial.py and term_node.py): a singly
    linked list of TermNodes kept in non-increasing exponent order, built by
    insert_term, read from text by from_string, evaluated, added and printed.

    The list object keeps a ghost spine `nodes`, the ghost abstract value
    `Contents` and the ghost footprint `Repr`; every method is proved against
    the value-level functions below. */
module LinkedPoly {
  import opened Text
  import opened PolyTerms
  import opened PolyText
  import opened TermScanner

  // ---------------------------------------------------------------------
  // insert_term on values

  /** The walk of insert_term from position k: move on while the next term
      has a higher exponent than e. */
  function Stop(ts: seq<Term>, e: nat, k: nat): (r: nat)
    requires k < |ts|
    ensures k <= r < |ts|
    ensures forall j :: k < j <= r ==> ts[j].degree > e
    ensures r + 1 < |ts| ==> ts[r + 1].degree <= e
    decreases |ts| - k
  {
    if k + 1 < |ts| && ts[k + 1].degree > e then Stop(ts, e, k + 1) else k
  }

  /** insert_term(c, e) as written: a zero coefficient is ignored; a new
      highest exponent goes in front; otherwise the walk stops at the last
      term whose successor does not have a higher exponent, and the term is
      merged into that node when the exponents are equal (the node is removed
      when the sum is zero) or linked in after it. */
  function QInsert(ts: seq<Term>, c: int, e: nat): seq<Term>
  {
    if c == 0 then ts
    else if ts == [] || ts[0].degree < e then [Term(c, e)] + ts
    else
      var k := Stop(ts, e, 0);
      if ts[k].degree == e then
        if ts[k].coef + c != 0 then ts[k := Term(ts[k].coef + c, e)]
        else if k == 0 then ts[1..]
        else ts[..k] + ts[k + 1..]
      else ts[..k + 1] + [Term(c, e)] + ts[k + 1..]
  }

  /** insert_term applied to each term of us in turn. */
  function InsertAll(ts: seq<Term>, us: seq<Term>): seq<Term>
    decreases |us|
  {
    if us == [] then ts else InsertAll(QInsert(ts, us[0].coef, us[0].degree), us[1..])
  }

  /** The walk only passes terms of a higher exponent: it stops at the head
      or at a term whose exponent is above e. */
  lemma StopAbove(ts: seq<Term>, e: nat)
    requires ts != []
    ensures Stop(ts, e, 0) > 0 ==> ts[Stop(ts, e, 0)].degree > e
  {
  }

  lemma EvalSingle(t: Term, x: int)
    ensures Eval([t], x) == t.coef * Pow(x, t.degree)
  {
    assert [t][1..] == [];
  }

  /** Replacing the term at k by mid changes the value by mid's value minus
      that term's. */
  lemma EvalAround(ts: seq<Term>, k: nat, mid: seq<Term>, x: int)
    requires k < |ts|
    ensures Eval(ts[..k] + mid + ts[k + 1..], x)
      == Eval(ts, x) - ts[k].coef * Pow(x, ts[k].degree) + Eval(mid, x)
  {
    assert ts == ts[..k] + [ts[k]] + ts[k + 1..];
    EvalAppend(ts[..k] + [ts[k]], ts[k + 1..], x);
    EvalAppend(ts[..k], [ts[k]], x);
    EvalAppend(ts[..k] + mid, ts[k + 1..], x);
    EvalAppend(ts[..k], mid, x);
    EvalSingle(ts[k], x);
  }

  /** The term at k with c added to its coefficient. */
  lemma EvalBumped(ts: seq<Term>, k: nat, c: int, x: int)
    requires k < |ts|
    ensures Eval(ts[k := Term(ts[k].coef + c, ts[k].degree)], x)
      == Eval(ts, x) + c * Pow(x, ts[k].degree)
  {
    var t := Term(ts[k].coef + c, ts[k].degree);
    assert ts[k := t] == ts[..k] + [t] + ts[k + 1..];
    EvalAround(ts, k, [t], x);
    EvalSingle(t, x);
    assert (ts[k].coef + c) * Pow(x, ts[k].degree)
      == ts[k].coef * Pow(x, ts[k].degree) + c * Pow(x, ts[k].degree);
  }

  /** The term at k taken out. */
  lemma EvalDropped(ts: seq<Term>, k: nat, x: int)
    requires k < |ts|
    ensures Eval(ts[..k] + ts[k + 1..], x) == Eval(ts, x) - ts[k].coef * Pow(x, ts[k].degree)
  {
    assert ts[..k] + ts[k + 1..] == ts[..k] + [] + ts[k + 1..];
    EvalAround(ts, k, [], x);
  }

  /** A new term t placed right after position k. */
  lemma EvalPlacedAfter(ts: seq<Term>, k: nat, t: Term, x: int)
    requires k < |ts|
    ensures Eval(ts[..k + 1] + [t] + ts[k + 1..], x) == Eval(ts, x) + t.coef * Pow(x, t.degree)
  {
    var front, back := ts[..k + 1], ts[k + 1..];
    assert ts == front + back;
    EvalAppend(front, back, x);
    EvalAppend(front + [t], back, x);
    EvalAppend(front, [t], x);
    EvalSingle(t, x);
  }

  /** insert_term(c, e) adds c * x^e to the value at every x, whatever the
      order of the list. */
  lemma QInsertEval(ts: seq<Term>, c: int, e: nat, x: int)
    ensures Eval(QInsert(ts, c, e), x) == Eval(ts, x) + c * Pow(x, e)
  {
    if c == 0 {
    } else if ts == [] || ts[0].degree < e {
      assert ([Term(c, e)] + ts)[1..] == ts;
    } else {
      var k := Stop(ts, e, 0);
      if ts[k].degree == e {
        if ts[k].coef + c != 0 {
          EvalBumped(ts, k, c, x);
        } else {
          EvalDropped(ts, k, x);
          assert k == 0 ==> ts[1..] == ts[..k] + ts[k + 1..];
          assert ts[k].coef * Pow(x, e) + c * Pow(x, e) == (ts[k].coef + c) * Pow(x, e);
        }
      } else {
        EvalPlacedAfter(ts, k, Term(c, e), x);
      }
    }
  }

  /** The walk inserts the new term where the order stays non-increasing,
      and no zero coefficient is ever stored. */
  lemma QInsertOrdered(ts: seq<Term>, c: int, e: nat)
    requires NonIncreasing(ts) && NoZero(ts)
    ensures NonIncreasing(QInsert(ts, c, e)) && NoZero(QInsert(ts, c, e))
  {
    if c == 0 {
    } else if ts == [] || ts[0].degree < e {
      PrependOrdered(ts, Term(c, e));
    } else {
      var k := Stop(ts, e, 0);
      if ts[k].degree == e {
        if ts[k].coef + c != 0 {
          BumpOrdered(ts, k, Term(ts[k].coef + c, e));
        } else if k == 0 {
          SliceOrdered(ts, 1);
        } else {
          DropOrdered(ts, k);
        }
      } else {
        InsertAfterOrdered(ts, k, Term(c, e));
      }
    }
  }

  lemma PrependOrdered(ts: seq<Term>, t: Term)
    requires NonIncreasing(ts) && NoZero(ts) && t.coef != 0
    requires ts == [] || ts[0].degree <= t.degree
    ensures NonIncreasing([t] + ts) && NoZero([t] + ts)
  {
  }

  lemma BumpOrdered(ts: seq<Term>, k: nat, t: Term)
    requires k < |ts| && NonIncreasing(ts) && NoZero(ts)
    requires t.coef != 0 && t.degree == ts[k].degree
    ensures NonIncreasing(ts[k := t]) && NoZero(ts[k := t])
  {
  }

  lemma DropOrdered(ts: seq<Term>, k: nat)
    requires k < |ts| && NonIncreasing(ts) && NoZero(ts)
    ensures NonIncreasing(ts[..k] + ts[k + 1..]) && NoZero(ts[..k] + ts[k + 1..])
  {
    var r := ts[..k] + ts[k + 1..];
    assert forall i :: 0 <= i < |r| ==> r[i] == if i < k then ts[i] else ts[i + 1];
  }

  lemma SliceOrdered(ts: seq<Term>, k: nat)
    requires k <= |ts| && NonIncreasing(ts) && NoZero(ts)
    ensures NonIncreasing(ts[k..]) && NoZero(ts[k..])
  {
    assert forall i :: 0 <= i < |ts[k..]| ==> ts[k..][i] == ts[k + i];
  }

  /** A term linked in after position k, between a term of at least its
      exponent and one of at most its exponent, keeps the order. */
  lemma InsertAfterOrdered(ts: seq<Term>, k: nat, t: Term)
    requires k < |ts| && NonIncreasing(ts) && NoZero(ts) && t.coef != 0
    requires ts[k].degree >= t.degree
    requires k + 1 < |ts| ==> ts[k + 1].degree <= t.degree
    ensures NonIncreasing(ts[..k + 1] + [t] + ts[k + 1..]) && NoZero(ts[..k + 1] + [t] + ts[k + 1..])
  {
    var r := ts[..k + 1] + [t] + ts[k + 1..];
    assert forall i :: 0 <= i <= k ==> r[i] == ts[i];
    assert r[k + 1] == t;
    assert forall i :: k + 1 < i < |r| ==> r[i] == ts[i - 1];
  }

  /** When every stored exponent is above e, insert_term appends the term
      (or nothing, for a zero coefficient). */
  lemma QInsertAppends(ts: seq<Term>, c: int, e: nat)
    requires Above(ts, e)
    ensures QInsert(ts, c, e) == ts + Keep(Term(c, e))
  {
    if c != 0 && ts != [] {
      var k := Stop(ts, e, 0);
      assert k == |ts| - 1;
      assert ts[k + 1..] == [];
      assert ts[..k + 1] == ts;
    }
  }

  /** The duplicate exponent: x^2 + x, then insert_term(1, 1). The walk stops
      at x^2 because the next exponent is not above 1, and x^2's exponent is
      not 1, so a second x is linked in instead of merging into the first. */
  lemma QInsertDuplicate()
    ensures QInsert([Term(1, 2), Term(1, 1)], 1, 1) == [Term(1, 2), Term(1, 1), Term(1, 1)]
    ensures !Descending(QInsert([Term(1, 2), Term(1, 1)], 1, 1))
  {
    var ts := [Term(1, 2), Term(1, 1)];
    assert Stop(ts, 1, 0) == 0;
    var r := QInsert(ts, 1, 1);
    assert r == [Term(1, 2), Term(1, 1), Term(1, 1)];
    assert r[1].degree == r[2].degree;
  }

  /** from_string("x^2 + x + x"): the scanned terms x^2, x, x are kept as
      three terms, the last two with the same exponent. */
  lemma InsertAllDuplicate()
    ensures InsertAll([], [Term(1, 2), Term(1, 1), Term(1, 1)]) == [Term(1, 2), Term(1, 1), Term(1, 1)]
  {
    var us := [Term(1, 2), Term(1, 1), Term(1, 1)];
    assert QInsert([], 1, 2) == [Term(1, 2)];
    assert QInsert([Term(1, 2)], 1, 1) == [Term(1, 2), Term(1, 1)] by {
      QInsertAppends([Term(1, 2)], 1, 1);
    }
    QInsertDuplicate();
    assert us[1..][1..][1..] == [];
  }

  lemma InsertAllCons(ts: seq<Term>, t: Term, rest: seq<Term>)
    ensures InsertAll(ts, [t] + rest) == InsertAll(QInsert(ts, t.coef, t.degree), rest)
  {
    assert ([t] + rest)[1..] == rest;
  }

  /** Inserting terms one by one adds their values. */
  lemma {:induction false} InsertAllEval(ts: seq<Term>, us: seq<Term>, x: int)
    ensures Eval(InsertAll(ts, us), x) == Eval(ts, x) + Eval(us, x)
    decreases |us|
  {
    if us != [] {
      QInsertEval(ts, us[0].coef, us[0].degree, x);
      InsertAllEval(QInsert(ts, us[0].coef, us[0].degree), us[1..], x);
    }
  }

  /** Inserting terms one by one keeps the list non-increasing and free of
      zero coefficients. */
  lemma {:induction false} InsertAllOrdered(ts: seq<Term>, us: seq<Term>)
    requires NonIncreasing(ts) && NoZero(ts)
    ensures NonIncreasing(InsertAll(ts, us)) && NoZero(InsertAll(ts, us))
    decreases |us|
  {
    if us != [] {
      QInsertOrdered(ts, us[0].coef, us[0].degree);
      InsertAllOrdered(QInsert(ts, us[0].coef, us[0].degree), us[1..]);
    }
  }

  /** Terms inserted in strictly descending order below everything stored
      are appended, the zero ones dropped. */
  lemma {:induction false} InsertAllDescending(ts: seq<Term>, us: seq<Term>)
    requires Canonical(us)
    requires us != [] ==> Above(ts, us[0].degree)
    ensures InsertAll(ts, us) == ts + us
    decreases |us|
  {
    if us != [] {
      QInsertAppends(ts, us[0].coef, us[0].degree);
      var ts' := ts + [us[0]];
      InsertAllDescending(ts', us[1..]);
      MoveHead(ts, us);
    }
  }

  /** Moving the head of s onto the end of a leaves the concatenation alone. */
  lemma MoveHead<T>(a: seq<T>, s: seq<T>)
    requires s != []
    ensures (a + [s[0]]) + s[1..] == a + s
  {
    assert s == [s[0]] + s[1..];
  }

  /** Read back in its own order, a canonical list is rebuilt as it was. */
  lemma InsertAllCanonical(us: seq<Term>)
    requires Canonical(us)
    ensures InsertAll([], us) == us
  {
    InsertAllDescending([], us);
  }

  // ---------------------------------------------------------------------
  // add on values

  /** The terms the three loops of add pass to insert_term, in order: the
      higher exponent of the two cursors, or the sum of both coefficients on
      equal exponents; then what is left of either list. */
  function Emitted(a: seq<Term>, b: seq<Term>): seq<Term>
    decreases |a| + |b|
  {
    if a == [] && b == [] then []
    else if a != [] && (b == [] || a[0].degree > b[0].degree) then [a[0]] + Emitted(a[1..], b)
    else if b != [] && (a == [] || b[0].degree > a[0].degree) then [b[0]] + Emitted(a, b[1..])
    else [Term(a[0].coef + b[0].coef, a[0].degree)] + Emitted(a[1..], b[1..])
  }

  /** The emitted terms are worth the sum of both lists, in any order. */
  lemma {:induction false} EmittedEval(a: seq<Term>, b: seq<Term>, x: int)
    ensures Eval(Emitted(a, b), x) == Eval(a, x) + Eval(b, x)
    decreases |a| + |b|
  {
    if a == [] && b == [] {
    } else if a != [] && (b == [] || a[0].degree > b[0].degree) {
      EmittedEval(a[1..], b, x);
      assert ([a[0]] + Emitted(a[1..], b))[1..] == Emitted(a[1..], b);
    } else if b != [] && (a == [] || b[0].degree > a[0].degree) {
      EmittedEval(a, b[1..], x);
      assert ([b[0]] + Emitted(a, b[1..]))[1..] == Emitted(a, b[1..]);
    } else {
      EmittedEval(a[1..], b[1..], x);
      var t := Term(a[0].coef + b[0].coef, a[0].degree);
      assert ([t] + Emitted(a[1..], b[1..]))[1..] == Emitted(a[1..], b[1..]);
      assert t.coef * Pow(x, t.degree) == a[0].coef * Pow(x, a[0].degree) + b[0].coef * Pow(x, b[0].degree);
    }
  }

  /** Every exponent in ts is above d. */
  predicate Above(ts: seq<Term>, d: nat)
  {
    forall i :: 0 <= i < |ts| ==> ts[i].degree > d
  }

  /** Every exponent in ts is above the leading exponents of a and b. */
  predicate AboveBoth(ts: seq<Term>, a: seq<Term>, b: seq<Term>)
  {
    (a != [] ==> Above(ts, a[0].degree)) && (b != [] ==> Above(ts, b[0].degree))
  }

  /** Inserting the emitted terms after a list whose exponents are all above
      both operands' appends exactly the merged sum. */
  lemma {:induction false} EmitAppends(ts: seq<Term>, a: seq<Term>, b: seq<Term>)
    requires Descending(a) && Descending(b) && AboveBoth(ts, a, b)
    ensures InsertAll(ts, Emitted(a, b)) == ts + Merge(a, b)
    decreases |a| + |b|
  {
    if a == [] && b == [] {
    } else if a != [] && (b == [] || a[0].degree > b[0].degree) {
      EmitStep(ts, a[0], Emitted(a[1..], b), a[1..], b);
      EmitAppends(ts + Keep(a[0]), a[1..], b);
      Associative(ts, Keep(a[0]), Merge(a[1..], b));
    } else if b != [] && (a == [] || b[0].degree > a[0].degree) {
      EmitStep(ts, b[0], Emitted(a, b[1..]), a, b[1..]);
      EmitAppends(ts + Keep(b[0]), a, b[1..]);
      Associative(ts, Keep(b[0]), Merge(a, b[1..]));
    } else {
      var t := Term(a[0].coef + b[0].coef, a[0].degree);
      EmitStep(ts, t, Emitted(a[1..], b[1..]), a[1..], b[1..]);
      EmitAppends(ts + Keep(t), a[1..], b[1..]);
      Associative(ts, Keep(t), Merge(a[1..], b[1..]));
    }
  }

  /** Inserting t, whose exponent is below everything in ts and above the
      leading exponents of a and b, appends it and keeps that bound. */
  lemma EmitStep(ts: seq<Term>, t: Term, rest: seq<Term>, a: seq<Term>, b: seq<Term>)
    requires Above(ts, t.degree)
    requires Descending(a) && Descending(b)
    requires a != [] ==> t.degree > a[0].degree
    requires b != [] ==> t.degree > b[0].degree
    ensures InsertAll(ts, [t] + rest) == InsertAll(ts + Keep(t), rest)
    ensures AboveBoth(ts + Keep(t), a, b)
  {
    InsertAllCons(ts, t, rest);
    QInsertAppends(ts, t.coef, t.degree);
  }

  /** For lists in strictly descending order (as insert_term builds from
      distinct exponents), add gives the merged sum, so the sum of two
      canonical polynomials is canonical. */
  lemma AddMerge(a: seq<Term>, b: seq<Term>)
    requires Descending(a) && Descending(b)
    ensures InsertAll([], Emitted(a, b)) == Merge(a, b)
  {
    EmitAppends([], a, b);
  }

  /** add(p1, p2) evaluates to the sum of the operands' values at every x,
      whatever their order. */
  lemma AddEval(a: seq<Term>, b: seq<Term>, x: int)
    ensures Eval(InsertAll([], Emitted(a, b)), x) == Eval(a, x) + Eval(b, x)
  {
    InsertAllEval([], Emitted(a, b), x);
    EmittedEval(a, b, x);
  }

  /** Once either list is used up, the rest of the other is emitted as it
      is. */
  lemma {:induction false} EmittedRest(a: seq<Term>, b: seq<Term>)
    requires a == [] || b == []
    ensures Emitted(a, b) == a + b
    decreases |a| + |b|
  {
    if a != [] {
      EmittedRest(a[1..], b);
      assert a + b == [a[0]] + (a[1..] + b);
    } else if b != [] {
      EmittedRest(a, b[1..]);
      assert a + b == [b[0]] + (a + b[1..]);
    }
  }

  lemma EmitFromA(a: seq<Term>, b: seq<Term>, i: nat, j: nat)
    requires i < |a| && j <= |b| && (j == |b| || a[i].degree > b[j].degree)
    ensures Emitted(a[i..], b[j..]) == [a[i]] + Emitted(a[i + 1..], b[j..])
  {
    assert a[i..][1..] == a[i + 1..];
  }

  lemma EmitFromB(a: seq<Term>, b: seq<Term>, i: nat, j: nat)
    requires i <= |a| && j < |b| && (i == |a| || b[j].degree > a[i].degree)
    ensures Emitted(a[i..], b[j..]) == [b[j]] + Emitted(a[i..], b[j + 1..])
  {
    assert b[j..][1..] == b[j + 1..];
  }

  lemma EmitFromBoth(a: seq<Term>, b: seq<Term>, i: nat, j: nat)
    requires i < |a| && j < |b| && a[i].degree == b[j].degree
    ensures Emitted(a[i..], b[j..]) == [Term(a[i].coef + b[j].coef, a[i].degree)] + Emitted(a[i + 1..], b[j + 1..])
  {
    assert a[i..][1..] == a[i + 1..];
    assert b[j..][1..] == b[j + 1..];
  }

  // ---------------------------------------------------------------------
  // to_string and from_string on values

  /** The sign to_string puts in front of a term: " + " for a non-negative
      coefficient after the first part, nothing on the first, " - " for a
      negative one anywhere. */
  function LSign(c: int, first: bool): string
  {
    if c >= 0 && !first then " + " else if c >= 0 then "" else " - "
  }

  /** The parts to_string collects, one per node. */
  function LPieces(ts: seq<Term>, first: bool): seq<string>
  {
    if ts == [] then [] else [LSign(ts[0].coef, first) + Body(ts[0])] + LPieces(ts[1..], false)
  }

  /** The parts from position i on: the i-th part, then the others. */
  lemma LPiecesAt(ts: seq<Term>, i: nat, first: bool)
    requires i < |ts|
    ensures LPieces(ts[i..], first) == [LSign(ts[i].coef, first) + Body(ts[i])] + LPieces(ts[i + 1..], false)
  {
    assert ts[i..][1..] == ts[i + 1..];
  }

  /** to_string: "0" for the empty list, otherwise the parts joined, with
      leading spaces and plus signs stripped. */
  function LFormat(ts: seq<Term>): string
  {
    if ts == [] then "0" else LStrip(Concat(LPieces(ts, true)), {' ', '+'})
  }

  /** The text from_string scans: the spaces removed and a '+' put in front
      unless it starts with a sign; None for a blank string. */
  function Prepared(s: string): string
  {
    var t := RemoveAll(s, ' ');
    if t == [] || IsSign(t[0]) then t else "+" + t
  }

  /** The terms from_string inserts, in order. */
  function FromText(s: string): seq<Term>
  {
    if RemoveAll(s, ' ') == [] then [] else ScanTerms(Prepared(s))
  }

  /** After the first part, to_string's parts are __str__'s for a list
      without zero coefficients. */
  lemma {:induction false} LPiecesTail(ts: seq<Term>)
    requires NoZero(ts)
    ensures LPieces(ts, false) == Pieces(ts, false)
  {
    if ts != [] {
      LPiecesTail(ts[1..]);
    }
  }

  /** A negative first part loses its leading space and keeps the rest. */
  lemma StripNegative(u: string)
    ensures LStrip(" - " + u, {' ', '+'}) == "- " + u
  {
    assert (" - " + u)[1..] == "- " + u;
  }

  /** Without spaces, "- " + u is the minus sign then u without spaces. */
  lemma RemoveNegative(u: string)
    ensures RemoveAll("- " + u, ' ') == "-" + RemoveAll(u, ' ')
  {
    assert ("- " + u)[1..] == " " + u;
    assert (" " + u)[1..] == u;
  }

  /** to_string of a non-empty list without zero terms: the first body with
      "- " in front when negative, then __str__'s other parts. */
  lemma LFormatCons(ts: seq<Term>)
    requires NoZero(ts) && ts != []
    ensures var rest := Concat(Pieces(ts[1..], false));
      LFormat(ts) == if ts[0].coef < 0 then "- " + (Body(ts[0]) + rest) else Body(ts[0]) + rest
  {
    var t := ts[0];
    var rest := Concat(Pieces(ts[1..], false));
    assert Concat(LPieces(ts, true)) == (LSign(t.coef, true) + Body(t)) + rest by {
      LPiecesTail(ts[1..]);
    }
    BodyShape(t);
    StripFirst(t.coef, Body(t), rest);
  }

  /** The leading sign of the first part, stripped: nothing for a
      non-negative coefficient, "- " for a negative one. */
  lemma StripFirst(c: int, body: string, rest: string)
    requires body != [] && body[0] != ' ' && body[0] != '+'
    ensures LStrip((LSign(c, true) + body) + rest, {' ', '+'})
      == if c < 0 then "- " + (body + rest) else body + rest
  {
    if c < 0 {
      assert (LSign(c, true) + body) + rest == " - " + (body + rest);
      StripNegative(body + rest);
    } else {
      assert (LSign(c, true) + body) + rest == body + rest;
      LStripUnchanged(body + rest, {' ', '+'});
    }
  }

  /** Without its spaces, to_string of a non-empty list without zero terms
      is the first body with only its minus sign, then the other tokens. */
  lemma LFormatWithoutSpaces(ts: seq<Term>)
    requires NoZero(ts) && ts != []
    ensures RemoveAll(LFormat(ts), ' ')
      == ((if ts[0].coef < 0 then "-" else "") + Body(ts[0])) + Concat(Tokens(ts[1..]))
  {
    var t := ts[0];
    var rest := Concat(Pieces(ts[1..], false));
    var u := Body(t) + rest;
    assert RemoveAll(u, ' ') == Body(t) + Concat(Tokens(ts[1..])) by {
      PiecesTokens(ts[1..]);
      BodyShape(t);
      RemoveAllAbsent(Body(t), ' ');
      RemoveAllAppend(Body(t), rest, ' ');
    }
    LFormatCons(ts);
    SignedWithoutSpaces(LFormat(ts), u, t.coef < 0, Body(t), Concat(Tokens(ts[1..])));
  }

  /** Removing the spaces of u, with or without "- " in front. */
  lemma SignedWithoutSpaces(f: string, u: string, negative: bool, head: string, tail: string)
    requires f == if negative then "- " + u else u
    requires RemoveAll(u, ' ') == head + tail
    ensures RemoveAll(f, ' ') == ((if negative then "-" else "") + head) + tail
  {
    if negative {
      RemoveNegative(u);
    } else {
      assert "" + head == head;
    }
  }

  /** from_string's preparation of a text whose spaces-free form is the
      first body, with a minus sign or none, then the rest. */
  lemma PreparedOf(s: string, negative: bool, body: string, rest: string)
    requires RemoveAll(s, ' ') == ((if negative then "-" else "") + body) + rest
    requires body != [] && !IsSign(body[0])
    ensures RemoveAll(s, ' ') != []
    ensures Prepared(s) == ((if negative then "-" else "+") + body) + rest
  {
  }

  /** The text from_string scans, for to_string of a non-empty list without
      zero terms, is its tokens joined. */
  lemma PreparedFormat(ts: seq<Term>)
    requires NoZero(ts) && ts != []
    ensures RemoveAll(LFormat(ts), ' ') != []
    ensures Prepared(LFormat(ts)) == Concat(Tokens(ts))
  {
    var t := ts[0];
    LFormatWithoutSpaces(ts);
    BodyShape(t);
    PreparedOf(LFormat(ts), t.coef < 0, Body(t), Concat(Tokens(ts[1..])));
    TokensJoined(ts);
  }

  /** from_string(to_string(p)) rebuilds p: for a canonical list, printing
      then reading back gives the same terms. The empty list prints as "0",
      which is read as a zero constant that insert_term ignores. */
  lemma LinkedRoundTrip(ts: seq<Term>)
    requires Canonical(ts)
    ensures InsertAll([], FromText(LFormat(ts))) == ts
  {
    if ts == [] {
      assert RemoveAll("0", ' ') == "0";
      assert Prepared("0") == ['+'] + "0" + [];
      ScanConstant('+', "0", []);
      assert DigitsValue("0") == 0;
      assert FromText(LFormat(ts)) == [Term(0, 0)];
    } else {
      PreparedFormat(ts);
      ScanTokens(ts);
      InsertAllCanonical(ts);
    }
  }

  // ---------------------------------------------------------------------
  // The linked list

  class TermNode {
    var coef: int
    var exp: nat
    var next: TermNode?

    constructor (coef: int, exp: nat, next: TermNode?)
      ensures this.coef == coef && this.exp == exp && this.next == next
    {
      this.coef := coef;
      this.exp := exp;
      this.next := next;
    }
  }

  class LinkedPolynomial {
    var head: TermNode?
    ghost var nodes: seq<TermNode>
    ghost var Contents: seq<Term>
    ghost var Repr: set<object>

    ghost predicate Valid()
      reads this, Repr
    {
      && this in Repr
      && |nodes| == |Contents|
      && (forall i :: 0 <= i < |nodes| ==> nodes[i] in Repr)
      && (forall i, j :: 0 <= i < j < |nodes| ==> nodes[i] != nodes[j])
      && head == (if nodes == [] then null else nodes[0])
      && (forall i :: 0 <= i < |nodes| - 1 ==> nodes[i].next == nodes[i + 1])
      && (|nodes| > 0 ==> nodes[|nodes| - 1].next == null)
      && (forall i :: 0 <= i < |nodes| ==>
            nodes[i].coef == Contents[i].coef && nodes[i].exp == Contents[i].degree)
    }

    /** The node at position k holds the k-th term and links to the next
        node, or to nothing at the end. */
    lemma NodeAt(k: nat)
      requires Valid() && k < |nodes|
      ensures Term(nodes[k].coef, nodes[k].exp) == Contents[k]
      ensures nodes[k].next == if k + 1 < |nodes| then nodes[k + 1] else null
    {
    }

    constructor ()
      ensures Valid() && fresh(Repr) && Contents == []
    {
      head := null;
      nodes := [];
      Contents := [];
      Repr := {this};
    }

    /** insert_term(coef, exp) */
    method InsertTerm(coef: int, exp: nat)
      requires Valid()
      modifies Repr
      ensures Valid() && fresh(Repr - old(Repr))
      ensures Contents == QInsert(old(Contents), coef, exp)
    {
      if coef == 0 {
        return;
      }
      if head == null || head.exp < exp {
        Prepend(coef, exp);
        return;
      }
      var curr, k := Walk(exp);
      if curr.exp == exp {
        AddToCoefficientAt(curr, k, coef);
        if curr.coef == 0 {
          if head == curr {
            UnlinkHead();
          } else {
            // The walk only passes nodes of a higher exponent, so a node of
            // exponent exp that is not the head is never reached.
            assert false;
          }
        }
      } else {
        LinkAfter(curr, k, coef, exp);
      }
    }

    /** The node the walk of insert_term stops at, for a list whose head
        exponent is at least exp. */
    method Walk(exp: nat) returns (curr: TermNode, ghost k: nat)
      requires Valid() && head != null
      ensures k < |nodes| && curr == nodes[k] && k == Stop(Contents, exp, 0)
      ensures k > 0 ==> Contents[k].degree > exp
    {
      curr := head;
      k := 0;
      while curr.next != null && curr.next.exp > exp
        invariant k < |nodes| && curr == nodes[k]
        invariant Stop(Contents, exp, k) == Stop(Contents, exp, 0)
        invariant k > 0 ==> Contents[k].degree > exp
        decreases |nodes| - k
      {
        curr := curr.next;
        k := k + 1;
      }
    }

    /** Links a new head node in front of the list. */
    method Prepend(coef: int, exp: nat)
      requires Valid()
      modifies this
      ensures Valid() && fresh(Repr - old(Repr))
      ensures Contents == [Term(coef, exp)] + old(Contents)
    {
      var n := new TermNode(coef, exp, head);
      ghost var ns := nodes;
      head := n;
      nodes := [n] + nodes;
      Contents := [Term(coef, exp)] + Contents;
      Repr := Repr + {n};
      assert forall i :: 1 <= i < |nodes| ==> nodes[i] == ns[i - 1];
    }

    /** Links a new node in after the node at position k. */
    method LinkAfter(curr: TermNode, ghost k: nat, coef: int, exp: nat)
      requires Valid() && k < |nodes| && curr == nodes[k]
      modifies this, curr
      ensures Valid() && fresh(Repr - old(Repr))
      ensures Contents == old(Contents[..k + 1]) + [Term(coef, exp)] + old(Contents[k + 1..])
    {
      ghost var ns := nodes;
      ghost var ts := Contents;
      assert k + 1 < |ns| ==> curr.next == ns[k + 1];
      var n := new TermNode(coef, exp, curr.next);
      curr.next := n;
      nodes := ns[..k + 1] + [n] + ns[k + 1..];
      Contents := ts[..k + 1] + [Term(coef, exp)] + ts[k + 1..];
      Repr := Repr + {n};
      SplicedAfter(ns, ts, k, n);
    }

    /** The spine with n spliced in after position k satisfies Valid when
        the links around n are set and the other nodes are as they were. */
    lemma SplicedAfter(ns: seq<TermNode>, ts: seq<Term>, k: nat, n: TermNode)
      requires |ns| == |ts| && k < |ns|
      requires nodes == ns[..k + 1] + [n] + ns[k + 1..]
      requires Contents == ts[..k + 1] + [Term(n.coef, n.exp)] + ts[k + 1..]
      requires this in Repr && n in Repr && forall j :: 0 <= j < |ns| ==> ns[j] in Repr
      requires forall i, j :: 0 <= i < j < |ns| ==> ns[i] != ns[j]
      requires forall j :: 0 <= j < |ns| ==> ns[j] != n
      requires head == ns[0]
      requires forall j :: 0 <= j < |ns| - 1 && j != k ==> ns[j].next == ns[j + 1]
      requires ns[k].next == n
      requires n.next == if k + 1 < |ns| then ns[k + 1] else null
      requires k + 1 < |ns| ==> ns[|ns| - 1].next == null
      requires forall j :: 0 <= j < |ns| ==> ns[j].coef == ts[j].coef && ns[j].exp == ts[j].degree
      ensures Valid()
    {
      assert forall j :: 0 <= j < |nodes| ==> nodes[j] == (if j <= k then ns[j] else if j == k + 1 then n else ns[j - 1]);
    }

    /** Adds c to the coefficient of the node at position k. */
    method AddToCoefficientAt(curr: TermNode, ghost k: nat, c: int)
      requires Valid() && k < |nodes| && curr == nodes[k]
      modifies this, curr
      ensures Valid() && nodes == old(nodes) && Repr == old(Repr)
      ensures Contents == old(Contents)[k := Term(old(Contents[k].coef) + c, old(Contents[k].degree))]
    {
      curr.coef := curr.coef + c;
      Contents := Contents[k := Term(curr.coef, curr.exp)];
    }

    /** Drops the head node. */
    method UnlinkHead()
      requires Valid() && head != null
      modifies this
      ensures Valid() && Repr == old(Repr)
      ensures Contents == old(Contents)[1..]
    {
      ghost var ns := nodes;
      head := head.next;
      nodes := nodes[1..];
      Contents := Contents[1..];
      assert forall i :: 0 <= i < |nodes| ==> nodes[i] == ns[i + 1];
    }

    /** One step of add: inserts t, the next of the terms still to be
        inserted. */
    method Emit(t: Term, ghost rest: seq<Term>, ghost target: seq<Term>, ghost others: set<object>)
      requires Valid() && InsertAll(Contents, [t] + rest) == target && Repr !! others
      modifies Repr
      ensures Valid() && fresh(Repr - old(Repr)) && Repr !! others
      ensures InsertAll(Contents, rest) == target
    {
      InsertAllCons(Contents, t, rest);
      InsertTerm(t.coef, t.degree);
    }

    /** One turn of the first loop of add, before anything is inserted: the
        term of the higher exponent, or the sum on equal exponents, and the
        cursors moved past what it consumes. */
    static method Pick(p1: LinkedPolynomial, p2: LinkedPolynomial, a: TermNode, b: TermNode,
                       ghost i: nat, ghost j: nat)
      returns (t: Term, a': TermNode?, b': TermNode?, ghost i': nat, ghost j': nat)
      requires p1.Valid() && p2.Valid()
      requires i < |p1.Contents| && a == p1.nodes[i]
      requires j < |p2.Contents| && b == p2.nodes[j]
      ensures i <= i' <= |p1.Contents| && a' == (if i' < |p1.Contents| then p1.nodes[i'] else null)
      ensures j <= j' <= |p2.Contents| && b' == (if j' < |p2.Contents| then p2.nodes[j'] else null)
      ensures i + j < i' + j'
      ensures Emitted(p1.Contents[i..], p2.Contents[j..])
        == [t] + Emitted(p1.Contents[i'..], p2.Contents[j'..])
    {
      ghost var A, B := p1.Contents, p2.Contents;
      var ta, tb := Term(a.coef, a.exp), Term(b.coef, b.exp);
      var an, bn := a.next, b.next;
      if ta.degree > tb.degree {
        EmitFromA(A, B, i, j);
        t, a', b', i', j' := ta, an, b, i + 1, j;
      } else if tb.degree > ta.degree {
        EmitFromB(A, B, i, j);
        t, a', b', i', j' := tb, a, bn, i, j + 1;
      } else {
        EmitFromBoth(A, B, i, j);
        t, a', b', i', j' := Term(ta.coef + tb.coef, ta.degree), an, bn, i + 1, j + 1;
      }
    }

    /** One turn of the second or third loop of add: insert the term of
        node x, the k-th of p, and return the node after it. */
    method EmitNode(p: LinkedPolynomial, x: TermNode, ghost k: nat,
                    ghost target: seq<Term>, ghost others: set<object>)
      returns (next: TermNode?)
      requires Valid() && p.Valid() && p.Repr <= others && Repr !! others
      requires k < |p.Contents| && x == p.nodes[k]
      requires InsertAll(Contents, p.Contents[k..]) == target
      modifies Repr
      ensures Valid() && fresh(Repr - old(Repr)) && Repr !! others
      ensures p.Valid() && p.Contents == old(p.Contents) && p.nodes == old(p.nodes)
      ensures next == (if k + 1 < |p.Contents| then p.nodes[k + 1] else null)
      ensures InsertAll(Contents, p.Contents[k + 1..]) == target
    {
      ghost var P := p.Contents;
      assert P[k..] == [P[k]] + P[k + 1..];
      p.NodeAt(k);
      var t := Term(x.coef, x.exp);
      next := x.next;
      Emit(t, P[k + 1..], target, others);
    }

    /** The second and third loops of add: insert the terms of p from the
        node x, at position i, to the end; inserting them leads to target. */
    method InsertRest(p: LinkedPolynomial, x: TermNode?, ghost i: nat,
                      ghost target: seq<Term>, ghost others: set<object>)
      requires Valid() && p.Valid() && p.Repr <= others && Repr !! others
      requires i <= |p.Contents| && x == (if i < |p.Contents| then p.nodes[i] else null)
      requires InsertAll(Contents, p.Contents[i..]) == target
      modifies Repr
      ensures Valid() && fresh(Repr - old(Repr)) && Repr !! others
      ensures Contents == target
    {
      ghost var P := p.Contents;
      ghost var ns := p.nodes;
      var curr := x;
      ghost var k := i;
      while curr != null
        invariant Valid() && fresh(Repr - old(Repr)) && Repr !! others
        invariant p.Valid() && p.Contents == P && p.nodes == ns
        invariant k <= |P| && curr == (if k < |P| then ns[k] else null)
        invariant InsertAll(Contents, P[k..]) == target
        decreases |P| - k
      {
        curr := EmitNode(p, curr, k, target, others);
        k := k + 1;
        assert InsertAll(Contents, P[k..]) == target;
      }
      assert P[k..] == [];
    }

    /** from_string(s): the scanned terms are inserted one by one into the
        list as it is. */
    method FromString(s: string)
      requires Valid()
      modifies Repr
      ensures Valid() && fresh(Repr - old(Repr))
      ensures Contents == InsertAll(old(Contents), FromText(s))
    {
      var t := RemoveAll(s, ' ');
      if t == [] {
        return;
      }
      if !IsSign(t[0]) {
        t := "+" + t;
      }
      var tokens := ScanTerms(t);
      for n := 0 to |tokens|
        invariant Valid() && fresh(Repr - old(Repr))
        invariant InsertAll(Contents, tokens[n..]) == InsertAll(old(Contents), tokens)
      {
        assert tokens[n..] == [tokens[n]] + tokens[n + 1..];
        InsertAllCons(Contents, tokens[n], tokens[n + 1..]);
        InsertTerm(tokens[n].coef, tokens[n].degree);
      }
    }

    /** evaluate(x): the sum of coef * x^exp over the nodes. */
    method Evaluate(x: int) returns (total: int)
      requires Valid()
      ensures total == Eval(Contents, x)
    {
      total := 0;
      var curr := head;
      ghost var i := 0;
      while curr != null
        invariant i <= |nodes| && curr == (if i < |nodes| then nodes[i] else null)
        invariant total + Eval(Contents[i..], x) == Eval(Contents, x)
        decreases |nodes| - i
      {
        assert Contents[i..][1..] == Contents[i + 1..];
        total := total + curr.coef * Pow(x, curr.exp);
        curr := curr.next;
        i := i + 1;
      }
    }

    /** to_string() */
    method ToString() returns (s: string)
      requires Valid()
      ensures s == LFormat(Contents)
    {
      if head == null {
        return "0";
      }
      var parts: seq<string> := [];
      var curr := head;
      ghost var i := 0;
      while curr != null
        invariant i <= |nodes| && curr == (if i < |nodes| then nodes[i] else null)
        invariant parts + LPieces(Contents[i..], i == 0) == LPieces(Contents, true)
        invariant i == 0 <==> parts == []
        decreases |nodes| - i
      {
        NodeAt(i);
        var c, e := curr.coef, curr.exp;
        var sign := if c >= 0 && parts != [] then " + " else if c >= 0 then "" else " - ";
        var term := Body(Term(c, e));
        LPiecesAt(Contents, i, i == 0);
        Associative(parts, [sign + term], LPieces(Contents[i + 1..], false));
        parts := parts + [sign + term];
        curr := curr.next;
        i := i + 1;
      }
      assert Contents[i..] == [];
      assert parts == LPieces(Contents, true);
      s := LStrip(Concat(parts), {' ', '+'});
    }

    /** The first loop of add: while both lists have terms left, emit the
        term of higher degree (or the sum of two equal-degree terms) into
        this polynomial. */
    method MergeWalk(p1: LinkedPolynomial, p2: LinkedPolynomial, ghost target: seq<Term>,
                     ghost others: set<object>)
      returns (a: TermNode?, b: TermNode?, ghost i: nat, ghost j: nat)
      requires Valid() && p1.Valid() && p2.Valid()
      requires p1.Repr <= others && p2.Repr <= others && Repr !! others
      requires InsertAll(Contents, Emitted(p1.Contents, p2.Contents)) == target
      modifies Repr
      ensures Valid() && fresh(Repr - old(Repr)) && Repr !! others
      ensures unchanged(p1, p2) && p1.Valid() && p2.Valid()
      ensures i <= |p1.Contents| && a == (if i < |p1.Contents| then p1.nodes[i] else null)
      ensures j <= |p2.Contents| && b == (if j < |p2.Contents| then p2.nodes[j] else null)
      ensures a == null || b == null
      ensures InsertAll(Contents, Emitted(p1.Contents[i..], p2.Contents[j..])) == target
    {
      ghost var A, B := p1.Contents, p2.Contents;
      ghost var ns1, ns2 := p1.nodes, p2.nodes;
      a, b := p1.head, p2.head;
      i, j := 0, 0;
      assert A[0..] == A && B[0..] == B;
      while a != null && b != null
        invariant Valid() && fresh(Repr - old(Repr)) && Repr !! others
        invariant i <= |A| && a == (if i < |A| then ns1[i] else null)
        invariant j <= |B| && b == (if j < |B| then ns2[j] else null)
        invariant InsertAll(Contents, Emitted(A[i..], B[j..])) == target
        decreases |A| - i + |B| - j
      {
        var t;
        t, a, b, i, j := Pick(p1, p2, a, b, i, j);
        Emit(t, Emitted(A[i..], B[j..]), target, others);
      }
    }

    /** The last two loops of add: once one list is exhausted, what is left
        of the other is inserted term by term. */
    method Finish(p1: LinkedPolynomial, p2: LinkedPolynomial, a: TermNode?, b: TermNode?,
                  ghost i: nat, ghost j: nat, ghost target: seq<Term>, ghost others: set<object>)
      requires Valid() && p1.Valid() && p2.Valid()
      requires p1.Repr <= others && p2.Repr <= others && Repr !! others
      requires i <= |p1.Contents| && a == (if i < |p1.Contents| then p1.nodes[i] else null)
      requires j <= |p2.Contents| && b == (if j < |p2.Contents| then p2.nodes[j] else null)
      requires a == null || b == null
      requires InsertAll(Contents, Emitted(p1.Contents[i..], p2.Contents[j..])) == target
      modifies Repr
      ensures Valid() && fresh(Repr - old(Repr)) && Repr !! others
      ensures Contents == target
    {
      ghost var A, B := p1.Contents, p2.Contents;
      EmittedRest(A[i..], B[j..]);
      // At most one list has terms left, so at most one of the two remaining
      // loops of the original does any work.
      if a != null {
        assert j == |B| && B[j..] == [];
        assert A[i..] + B[j..] == A[i..];
        InsertRest(p1, a, i, target, others);
      } else {
        assert i == |A| && A[i..] == [];
        assert A[i..] + B[j..] == B[j..];
        InsertRest(p2, b, j, target, others);
      }
    }
  }

  /** add(p1, p2): a fresh result, filled by the walk over both lists and
      the loops over what is left of each. */
  method Add(p1: LinkedPolynomial, p2: LinkedPolynomial) returns (res: LinkedPolynomial)
    requires p1.Valid() && p2.Valid()
    ensures res.Valid() && res.Repr !! p1.Repr && res.Repr !! p2.Repr
    ensures res.Contents == InsertAll([], Emitted(p1.Contents, p2.Contents))
  {
    res := new LinkedPolynomial();
    ghost var target := InsertAll([], Emitted(p1.Contents, p2.Contents));
    var a, b, i, j := res.MergeWalk(p1, p2, target, p1.Repr + p2.Repr);
    res.Finish(p1, p2, a, b, i, j, target, p1.Repr + p2.Repr);
  }
}
