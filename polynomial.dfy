/** The polynomial of the calculator (Proy_Poli/pol_model.py): a Polynomial
    owns a LinkedList of PolyNodes kept in strictly decreasing degree order
    by add_term. Every method works on the nodes in place, as the original
    does, and is proved against the value-level functions of PolyTerms. */
module Polynomials {
  import opened Wrappers
  import opened Text
  import opened PolyTerms
  import opened PolyText
  import opened DataStructures

  class Polynomial {
    var terms: LinkedList
    ghost var Repr: set<object>

    ghost predicate Valid()
      reads this, Repr
    {
      && this in Repr
      && terms in Repr
      && terms.Repr <= Repr
      && this !in terms.Repr
      && terms.Valid()
    }

    /** The terms from the head of the list. */
    ghost function Terms(): seq<Term>
      reads this, terms
    {
      terms.Contents
    }

    constructor ()
      ensures Valid() && fresh(Repr) && Terms() == []
    {
      terms := new LinkedList();
      new;
      Repr := {this} + terms.Repr;
    }

    /** add_term: a zero coefficient changes nothing; a degree above the head
        is linked in front; otherwise the scan stops at the first node whose
        degree is not above it, and either adds to that node (unlinking it
        when the sum is zero) or links a new node in front of it. */
    method AddTerm(coefficient: int, degree: nat)
      requires Valid()
      modifies Repr
      ensures Valid() && fresh(Repr - old(Repr)) && terms == old(terms)
      ensures Terms() == Insert(old(Terms()), coefficient, degree)
    {
      if coefficient == 0 {
        return;
      }
      var h := terms.head;
      if h == null || degree > h.degree {
        LinkTerm(null, h, 0, coefficient, degree);
        return;
      }
      var prev, current, k := Locate(degree);
      if current != null && degree == current.degree {
        CombineAt(prev, current, k, coefficient, degree);
      } else {
        LinkTerm(prev, current, k, coefficient, degree);
      }
    }

    /** Links a new node for c·x^d between prev and current, the k-th node,
        all of whose predecessors have higher degrees. */
    method LinkTerm(prev: PolyNode?, current: PolyNode?, ghost k: nat, coefficient: int, degree: nat)
      requires Valid() && k <= |terms.nodes|
      requires prev == if k == 0 then null else terms.nodes[k - 1]
      requires current == if k < |terms.nodes| then terms.nodes[k] else null
      requires forall j :: 0 <= j < k ==> degree < terms.Contents[j].degree
      requires k < |terms.nodes| ==> terms.Contents[k].degree < degree
      modifies Repr
      ensures Valid() && fresh(Repr - old(Repr)) && terms == old(terms)
      ensures Terms() == Place(old(Terms()), coefficient, degree)
    {
      PlaceNew(Terms(), coefficient, degree, k);
      var _ := terms.LinkAt(prev, current, k, coefficient, degree);
      Repr := Repr + terms.Repr;
    }

    /** Adds c to the coefficient of the k-th node, which has degree d, and
        unlinks the node when the sum is zero. */
    method CombineAt(prev: PolyNode?, current: PolyNode, ghost k: nat, coefficient: int, ghost degree: nat)
      requires Valid() && k < |terms.nodes|
      requires prev == if k == 0 then null else terms.nodes[k - 1]
      requires current == terms.nodes[k]
      requires forall j :: 0 <= j < k ==> degree < terms.Contents[j].degree
      requires terms.Contents[k].degree == degree
      modifies Repr
      ensures Valid() && Repr == old(Repr) && terms == old(terms)
      ensures Terms() == Place(old(Terms()), coefficient, degree)
    {
      PlaceSame(Terms(), coefficient, degree, k);
      terms.AddToCoefficientAt(current, k, coefficient);
      if current.coefficient == 0 {
        terms.UnlinkAt(prev, current, k);
      }
    }
 
    /** __add__: walks both term lists at once and links the emitted terms
        (the higher degree, or the sum on equal degrees, zero sums dropped)
        onto the tail of a fresh polynomial. */
    method Add(other: Polynomial) returns (result: Polynomial)
      requires Valid() && other.Valid()
      ensures result.Valid() && fresh(result.Repr)
      ensures result.Terms() == Merge(Terms(), other.Terms())
    {
      result := new Polynomial();
      ghost var p := Terms();
      ghost var q := other.Terms();
      ghost var ns := terms.nodes;
      ghost var ms := other.terms.nodes;
      var p1 := terms.head;
      var p2 := other.terms.head;
      ghost var i := 0;
      ghost var j := 0;
      var tail: PolyNode? := null;
      while p1 != null || p2 != null
        invariant result.Valid() && fresh(result.Repr)
        invariant i <= |p| && j <= |q|
        invariant p1 == if i < |p| then ns[i] else null
        invariant p2 == if j < |q| then ms[j] else null
        invariant tail == result.terms.Last()
        invariant result.Terms() + Merge(p[i..], q[j..]) == Merge(p, q)
        decreases |p| - i + |q| - j
      {
        p1, p2, i, j, tail := EmitNext(other, result, p1, p2, i, j, tail);
      }
      assert p[i..] == [] && q[j..] == [];
    }

    /** One pass of the loop of __add__: the next emitted term is linked at
        the tail of result, and what is left to merge shrinks accordingly. */
    method EmitNext(other: Polynomial, result: Polynomial, p1: PolyNode?, p2: PolyNode?,
                    ghost i: nat, ghost j: nat, tail: PolyNode?)
      returns (next1: PolyNode?, next2: PolyNode?, ghost i': nat, ghost j': nat, last: PolyNode?)
      requires Valid() && other.Valid() && result.Valid()
      requires result.Repr !! Repr && result.Repr !! other.Repr
      requires i <= |Terms()| && j <= |other.Terms()| && (p1 != null || p2 != null)
      requires p1 == if i < |Terms()| then terms.nodes[i] else null
      requires p2 == if j < |other.Terms()| then other.terms.nodes[j] else null
      requires tail == result.terms.Last()
      requires result.Terms() + Merge(Terms()[i..], other.Terms()[j..]) == Merge(Terms(), other.Terms())
      modifies result.Repr
      ensures result.Valid() && fresh(result.Repr - old(result.Repr))
      ensures i <= i' <= |Terms()| && j <= j' <= |other.Terms()| && i + j < i' + j'
      ensures next1 == if i' < |Terms()| then terms.nodes[i'] else null
      ensures next2 == if j' < |other.Terms()| then other.terms.nodes[j'] else null
      ensures last == result.terms.Last()
      ensures result.Terms() + Merge(Terms()[i'..], other.Terms()[j'..]) == Merge(Terms(), other.Terms())
    {
      ghost var done := result.Terms();
      var coeff, deg;
      coeff, deg, next1, next2, i', j' := NextSumTerm(other, p1, p2, i, j);
      ghost var rest := Merge(Terms()[i'..], other.Terms()[j'..]);
      last := result.KeepAtTail(tail, coeff, deg);
      Associative(done, Keep(Term(coeff, deg)), rest);
    }

    /** __sub__: the negated terms of other are added one by one to a fresh
        polynomial through add_term, and the result is added to this one. */
    method Subtract(other: Polynomial) returns (result: Polynomial)
      requires Valid() && other.Valid()
      ensures result.Valid() && fresh(result.Repr)
      ensures result.Terms() == Sub(Terms(), other.Terms())
    {
      var negOther := Negated(other);
      result := Add(negOther);
    }

    /** The loop of __sub__ that adds each term of other, negated, to a
        fresh polynomial. */
    static method Negated(other: Polynomial) returns (negOther: Polynomial)
      requires other.Valid()
      ensures negOther.Valid() && fresh(negOther.Repr)
      ensures negOther.Terms() == Rebuild(Negate(other.Terms()))
    {
      negOther := new Polynomial();
      ghost var q := other.Terms();
      ghost var ms := other.terms.nodes;
      var current := other.terms.head;
      ghost var i := 0;
      while current != null
        invariant negOther.Valid() && fresh(negOther.Repr)
        invariant i <= |q| && current == if i < |q| then ms[i] else null
        invariant negOther.Terms() == Rebuild(Negate(q[..i]))
        decreases |q| - i
      {
        assert Negate(q[..i + 1])[..i] == Negate(q[..i]);
        negOther.AddTerm(-current.coefficient, current.degree);
        current := current.next;
        i := i + 1;
      }
      assert q[..i] == q;
    }

    /** clone: a fresh polynomial built by add_term from the terms in list
        order. */
    method Clone() returns (cloned: Polynomial)
      requires Valid()
      ensures cloned.Valid() && fresh(cloned.Repr)
      ensures cloned.Terms() == Rebuild(Terms())
    {
      cloned := new Polynomial();
      ghost var p := Terms();
      ghost var ns := terms.nodes;
      var current := terms.head;
      ghost var i := 0;
      while current != null
        invariant cloned.Valid() && fresh(cloned.Repr)
        invariant i <= |p| && current == if i < |p| then ns[i] else null
        invariant cloned.Terms() == Rebuild(p[..i])
        decreases |p| - i
      {
        assert p[..i + 1][..i] == p[..i];
        cloned.AddTerm(current.coefficient, current.degree);
        current := current.next;
        i := i + 1;
      }
      assert p[..i] == p;
    }

    /** search_term: the coefficient of the first node of the degree, or
        None; nothing changes. */
    method SearchTerm(degree: nat) returns (r: Option<int>)
      requires Valid()
      ensures r == Search(Terms(), degree)
    {
      var current := terms.head;
      ghost var k := 0;
      while current != null
        invariant k <= |terms.nodes|
        invariant current == if k < |terms.nodes| then terms.nodes[k] else null
        invariant forall j :: 0 <= j < k ==> terms.Contents[j].degree != degree
        decreases |terms.nodes| - k
      {
        if current.degree == degree {
          return Some(current.coefficient);
        }
        current := current.next;
        k := k + 1;
      }
      return None;
    }

    /** delete_term: unlinks the first node of the degree and reports whether
        there was one. */
    method DeleteTerm(degree: nat) returns (deleted: bool)
      requires Valid()
      modifies Repr
      ensures Valid() && Repr == old(Repr) && terms == old(terms)
      ensures Terms() == Delete(old(Terms()), degree)
      ensures deleted == Search(old(Terms()), degree).Some?
    {
      var current := terms.head;
      var prev: PolyNode? := null;
      ghost var k := 0;
      while current != null && current.degree != degree
        invariant k <= |terms.nodes|
        invariant current == if k < |terms.nodes| then terms.nodes[k] else null
        invariant prev == if k == 0 then null else terms.nodes[k - 1]
        invariant forall j :: 0 <= j < k ==> terms.Contents[j].degree != degree
        decreases |terms.nodes| - k
      {
        prev := current;
        current := current.next;
        k := k + 1;
      }
      deleted := false;
      if current != null {
        terms.UnlinkAt(prev, current, k);
        deleted := true;
      }
    }

    /** __str__: "0" for an empty list; otherwise the signed pieces of the
        nonzero terms joined, with leading spaces and plus signs stripped. */
    method ToString() returns (s: string)
      requires Valid()
      ensures s == Format(Terms())
    {
      if terms.head == null {
        assert |Terms()| == |terms.nodes| == 0;
        return "0";
      }
      ghost var ts := Terms();
      var termsList: seq<string> := [];
      var current := terms.head;
      var isFirst := true;
      ghost var k := 0;
      while current != null
        invariant k <= |ts|
        invariant current == if k < |ts| then terms.nodes[k] else null
        invariant termsList + Pieces(ts[k..], isFirst) == Pieces(ts, true)
        decreases |ts| - k
      {
        assert ts[k..][1..] == ts[k + 1..];
        assert ts[k..][0] == ts[k];
        var coeff, degree := current.coefficient, current.degree;
        if coeff == 0 {
          current := current.next;
          k := k + 1;
          continue;
        }
        var piece := PieceString(coeff, degree, isFirst);
        ghost var before := termsList;
        termsList := termsList + [piece];
        Associative(before, [piece], Pieces(ts[k + 1..], false));
        isFirst := false;
        current := current.next;
        k := k + 1;
      }
      assert ts[k..] == [] && termsList + [] == termsList;
      assert ts != [] by {
        assert terms.nodes != [];
      }
      s := LStrip(Concat(termsList), {' ', '+'});
    }

    /** sort_terms: the nodes are gathered into a list, sorted by degree
        (stable; descending when ascending is false) and relinked in that
        order. Nodes are kept, only their next links change. */
    method SortTerms(ascending: bool)
      requires Valid()
      modifies Repr
      ensures Valid() && Repr == old(Repr) && terms == old(terms)
      ensures Terms() == SortByDegree(old(Terms()), ascending)
    {
      if terms.head == null {
        assert |Terms()| == |terms.nodes| == 0;
        return;
      }
      var nodes: seq<PolyNode> := [];
      var current := terms.head;
      while current != null
        invariant |nodes| <= |terms.nodes| && nodes == terms.nodes[..|nodes|]
        invariant current == if |nodes| < |terms.nodes| then terms.nodes[|nodes|] else null
        decreases |terms.nodes| - |nodes|
      {
        nodes := nodes + [current];
        current := current.next;
      }
      assert nodes == terms.nodes;
      assert NodeTerms(nodes) == Terms();
      var sorted := SortNodes(nodes, ascending);
      SortNodesDistinct(nodes, ascending);
      SortNodesTerms(nodes, ascending);
      terms.Relink(sorted);
    }

    /** One piece of __str__ for a nonzero term: its sign (none or "-" on
        the first piece, " + " or " - " after it), then the coefficient
        (left out when it is 1 on a power of x), then x and the power. */
    static method PieceString(coeff: int, degree: nat, isFirst: bool) returns (piece: string)
      requires coeff != 0
      ensures piece == SignString(coeff, isFirst) + Body(Term(coeff, degree))
    {
      var sign := if isFirst then "" else if coeff > 0 then " + " else " - ";
      if isFirst && coeff < 0 {
        sign := "-";
      }
      var coeffAbs := Abs(coeff);
      var coeffStr := if coeffAbs == 1 && degree != 0 then "" else NatToString(coeffAbs);
      var termStr;
      if degree == 0 {
        termStr := coeffStr;
      } else if degree == 1 {
        termStr := coeffStr + "x";
      } else {
        termStr := coeffStr + "x^" + NatToString(degree);
      }
      piece := sign + termStr;
    }

    /** A fresh polynomial holding the terms ts added one by one with
        add_term: clone applied to a stored list of terms. */
    static method FromTerms(ts: seq<Term>) returns (poly: Polynomial)
      ensures poly.Valid() && fresh(poly.Repr)
      ensures poly.Terms() == Rebuild(ts)
    {
      poly := new Polynomial();
      for i := 0 to |ts|
        invariant poly.Valid() && fresh(poly.Repr)
        invariant poly.Terms() == Rebuild(ts[..i])
      {
        assert ts[..i + 1][..i] == ts[..i];
        poly.AddTerm(ts[i].coef, ts[i].degree);
      }
      assert ts[..|ts|] == ts;
    }

    /** _parse_poly: strip and drop the spaces (blank text is the zero
        polynomial), put a '+' in front when there is no sign, then read
        every match of [+-][^+-]+ and add it with add_term. A literal that
        float() or int() rejects raises, and no polynomial comes back
        (null). */
    static method ParsePolynomial(polyStr: string) returns (poly: Polynomial?)
      ensures poly == null <==> ParsePoly(polyStr).None?
      ensures poly != null ==> poly.Valid() && fresh(poly.Repr) && poly.Terms() == ParsePoly(polyStr).value
    {
      var s := RemoveAll(Strip(polyStr), ' ');
      if s == [] {
        poly := new Polynomial();
        return;
      }
      if !IsSign(s[0]) {
        s := "+" + s;
      }
      assert s == Normalize(polyStr);
      poly := ReadMatches(FindTerms(s));
    }

    /** The loop of _parse_poly over the matches: each one is read and added
        with add_term; the first one that does not read stops the parse. */
    static method ReadMatches(terms: seq<string>) returns (poly: Polynomial?)
      ensures poly == null <==> ParseTerms(terms).None?
      ensures poly != null ==> poly.Valid() && fresh(poly.Repr) && poly.Terms() == Rebuild(ParseTerms(terms).value)
    {
      var p := new Polynomial();
      ghost var read: seq<Term> := [];
      for i := 0 to |terms|
        invariant p.Valid() && fresh(p.Repr)
        invariant |read| == i && forall j :: 0 <= j < i ==> ParseTerm(terms[j]) == Some(read[j])
        invariant p.Terms() == Rebuild(read)
      {
        var term := ParseTerm(terms[i]);
        if term.None? {
          ParseFails(terms, i);
          return null;
        }
        ghost var next := read + [term.value];
        assert next[..i] == read && next[i] == term.value;
        assert Rebuild(next) == Insert(Rebuild(read), term.value.coef, term.value.degree);
        p.AddTerm(term.value.coef, term.value.degree);
        read := next;
      }
      ParseAll(terms, read);
      poly := p;
    }

    /** The choosing step of __add__ at the nodes p1 (position i of this
        polynomial) and p2 (position j of other): the term it emits and where
        both walks continue. */
    method NextSumTerm(other: Polynomial, p1: PolyNode?, p2: PolyNode?, ghost i: nat, ghost j: nat)
      returns (coefficient: int, degree: nat, next1: PolyNode?, next2: PolyNode?, ghost i': nat, ghost j': nat)
      requires Valid() && other.Valid()
      requires i <= |Terms()| && j <= |other.Terms()| && (p1 != null || p2 != null)
      requires p1 == if i < |Terms()| then terms.nodes[i] else null
      requires p2 == if j < |other.Terms()| then other.terms.nodes[j] else null
      ensures i <= i' <= |Terms()| && j <= j' <= |other.Terms()| && i + j < i' + j'
      ensures next1 == if i' < |Terms()| then terms.nodes[i'] else null
      ensures next2 == if j' < |other.Terms()| then other.terms.nodes[j'] else null
      ensures Merge(Terms()[i..], other.Terms()[j..])
        == Keep(Term(coefficient, degree)) + Merge(Terms()[i'..], other.Terms()[j'..])
    {
      MergeFrom(Terms(), other.Terms(), i, j);
      coefficient, degree, next1, next2, i', j' := 0, 0, p1, p2, i, j;
      if p1 != null && (p2 == null || p1.degree > p2.degree) {
        coefficient, degree := p1.coefficient, p1.degree;
        next1, i' := p1.next, i + 1;
      } else if p2 != null && (p1 == null || p2.degree > p1.degree) {
        coefficient, degree := p2.coefficient, p2.degree;
        next2, j' := p2.next, j + 1;
      } else if p1 != null && p2 != null {
        coefficient, degree := p1.coefficient + p2.coefficient, p1.degree;
        next1, i' := p1.next, i + 1;
        next2, j' := p2.next, j + 1;
      }
    }

    /** The emitting step of __add__: a nonzero term becomes a new node
        linked after tail, the last node (null while the list is empty). */
    method KeepAtTail(tail: PolyNode?, coefficient: int, degree: nat) returns (last: PolyNode?)
      requires Valid()
      requires tail == terms.Last()
      modifies Repr
      ensures Valid() && fresh(Repr - old(Repr)) && terms == old(terms)
      ensures Terms() == old(Terms()) + Keep(Term(coefficient, degree))
      ensures last == terms.Last()
    {
      last := tail;
      if coefficient != 0 {
        last := terms.LinkAt(tail, null, |terms.nodes|, coefficient, degree);
        Repr := Repr + terms.Repr;
      }
    }

    /** The scan of add_term: walks past the nodes of higher degree and
        returns the node it stopped at (null at the end) and its predecessor. */
    method Locate(degree: nat) returns (prev: PolyNode?, current: PolyNode?, ghost k: nat)
      requires Valid()
      ensures k <= |terms.nodes|
      ensures current == if k < |terms.nodes| then terms.nodes[k] else null
      ensures prev == if k == 0 then null else terms.nodes[k - 1]
      ensures forall j :: 0 <= j < k ==> degree < terms.Contents[j].degree
      ensures k < |terms.nodes| ==> terms.Contents[k].degree <= degree
    {
      current := terms.head;
      prev := null;
      k := 0;
      while current != null && degree < current.degree
        invariant 0 <= k <= |terms.nodes|
        invariant current == if k < |terms.nodes| then terms.nodes[k] else null
        invariant prev == if k == 0 then null else terms.nodes[k - 1]
        invariant forall j :: 0 <= j < k ==> degree < terms.Contents[j].degree
        decreases |terms.nodes| - k
      {
        prev := current;
        current := current.next;
        k := k + 1;
      }
    }
  }

  /** The insertion scan skips the terms of higher degree; where it stops
      at a lower degree or at the end, the new term goes in between. */
  lemma {:induction false} PlaceNew(ts: seq<Term>, c: int, d: nat, k: nat)
    requires k <= |ts|
    requires forall j :: 0 <= j < k ==> d < ts[j].degree
    requires k < |ts| ==> ts[k].degree < d
    ensures Place(ts, c, d) == ts[..k] + [Term(c, d)] + ts[k..]
  {
    if k > 0 {
      PlaceNew(ts[1..], c, d, k - 1);
      assert ts[1..][..k - 1] == ts[1..k];
      assert ts[1..][k - 1..] == ts[k..];
      assert ts[..k] == [ts[0]] + ts[1..k];
    } else {
      assert ts[k..] == ts;
      assert ts[..k] == [];
    }
  }

  /** Where the scan stops at the same degree, the coefficients are summed
      and a zero sum removes the term. */
  lemma {:induction false} PlaceSame(ts: seq<Term>, c: int, d: nat, k: nat)
    requires k < |ts|
    requires forall j :: 0 <= j < k ==> d < ts[j].degree
    requires ts[k].degree == d
    ensures ts[k].coef + c == 0 ==> Place(ts, c, d) == ts[..k] + ts[k + 1..]
    ensures ts[k].coef + c != 0 ==> Place(ts, c, d) == ts[..k] + [Term(ts[k].coef + c, d)] + ts[k + 1..]
  {
    if k > 0 {
      PlaceSame(ts[1..], c, d, k - 1);
      assert ts[1..][..k - 1] == ts[1..k];
      assert ts[1..][k..] == ts[k + 1..];
      assert ts[..k] == [ts[0]] + ts[1..k];
    } else {
      assert ts[..k] == [];
    }
  }

  /** One step of the walk of __add__ from positions i and j. */
  lemma MergeFrom(p: seq<Term>, q: seq<Term>, i: nat, j: nat)
    requires i <= |p| && j <= |q| && (i < |p| || j < |q|)
    ensures i < |p| && (j == |q| || p[i].degree > q[j].degree) ==>
      Merge(p[i..], q[j..]) == Keep(p[i]) + Merge(p[i + 1..], q[j..])
    ensures j < |q| && (i == |p| || q[j].degree > p[i].degree) ==>
      Merge(p[i..], q[j..]) == Keep(q[j]) + Merge(p[i..], q[j + 1..])
    ensures i < |p| && j < |q| && p[i].degree == q[j].degree ==>
      Merge(p[i..], q[j..]) == Keep(Term(p[i].coef + q[j].coef, p[i].degree)) + Merge(p[i + 1..], q[j + 1..])
  {
    if i < |p| {
      assert p[i..][1..] == p[i + 1..];
    }
    if j < |q| {
      assert q[j..][1..] == q[j + 1..];
    }
  }

  // ---------------------------------------------------------------------
  // The list.sort of sort_terms, on the gathered nodes

  predicate Distinct(ns: seq<PolyNode>)
  {
    forall i, j :: 0 <= i < j < |ns| ==> ns[i] != ns[j]
  }

  /** Places node n after every node of s whose degree does not come
      strictly after n's. */
  function InsertNode(n: PolyNode, s: seq<PolyNode>, ascending: bool): (r: seq<PolyNode>)
    reads n, s
    ensures |r| == |s| + 1
    ensures forall j :: 0 <= j < |r| ==> r[j] == n || r[j] in s
  {
    if s == [] then [n]
    else if (if ascending then n.degree < s[0].degree else n.degree > s[0].degree) then [n] + s
    else [s[0]] + InsertNode(n, s[1..], ascending)
  }

  /** nodes.sort(key=degree, reverse=not ascending): a stable sort. */
  function SortNodes(ns: seq<PolyNode>, ascending: bool): (r: seq<PolyNode>)
    reads ns
    ensures |r| == |ns|
    ensures forall j :: 0 <= j < |r| ==> r[j] in ns
  {
    if ns == [] then []
    else
      var r := SortNodes(ns[..|ns| - 1], ascending);
      assert forall j :: 0 <= j < |r| ==> r[j] in ns;
      InsertNode(ns[|ns| - 1], r, ascending)
  }

  lemma {:induction false} InsertNodeDistinct(n: PolyNode, s: seq<PolyNode>, ascending: bool)
    requires n !in s && Distinct(s)
    ensures Distinct(InsertNode(n, s, ascending))
  {
    if s != [] && !(if ascending then n.degree < s[0].degree else n.degree > s[0].degree) {
      var rest := InsertNode(n, s[1..], ascending);
      InsertNodeDistinct(n, s[1..], ascending);
      assert s[0] !in rest by {
        forall j | 0 <= j < |rest| ensures rest[j] != s[0] {
          if rest[j] != n {
            var i :| 0 <= i < |s[1..]| && s[1..][i] == rest[j];
            assert s[i + 1] == rest[j];
          }
        }
      }
      var r := InsertNode(n, s, ascending);
      assert r == [s[0]] + rest;
      forall i, j | 0 <= i < j < |r| ensures r[i] != r[j] {
        assert r[j] == rest[j - 1] && rest[j - 1] in rest;
        if i > 0 {
          assert r[i] == rest[i - 1];
          assert rest[i - 1] != rest[j - 1];
        }
      }
    } else if s != [] {
      var r := InsertNode(n, s, ascending);
      assert r == [n] + s;
      assert forall j :: 0 < j < |r| ==> r[j] == s[j - 1];
    }
  }

  lemma {:induction false} InsertNodeTerms(n: PolyNode, s: seq<PolyNode>, ascending: bool)
    ensures NodeTerms(InsertNode(n, s, ascending))
      == InsertOrdered(Term(n.coefficient, n.degree), NodeTerms(s), ascending)
  {
    if s != [] && !(if ascending then n.degree < s[0].degree else n.degree > s[0].degree) {
      var rest := InsertNode(n, s[1..], ascending);
      InsertNodeTerms(n, s[1..], ascending);
      assert NodeTerms(s)[1..] == NodeTerms(s[1..]);
      assert NodeTerms([s[0]] + rest) == [Term(s[0].coefficient, s[0].degree)] + NodeTerms(rest);
    }
  }

  /** The sorted nodes are the gathered ones, each once, ... */
  lemma {:induction false} SortNodesDistinct(ns: seq<PolyNode>, ascending: bool)
    requires Distinct(ns)
    ensures Distinct(SortNodes(ns, ascending))
  {
    if ns != [] {
      var k := |ns| - 1;
      SortNodesDistinct(ns[..k], ascending);
      var r := SortNodes(ns[..k], ascending);
      assert ns[k] !in r by {
        forall j | 0 <= j < |r| ensures r[j] != ns[k] {
          var i :| 0 <= i < |ns[..k]| && ns[..k][i] == r[j];
          assert ns[i] == r[j];
        }
      }
      InsertNodeDistinct(ns[k], r, ascending);
    }
  }

  /** ... and their terms are the terms sorted by SortByDegree. */
  lemma {:induction false} SortNodesTerms(ns: seq<PolyNode>, ascending: bool)
    ensures NodeTerms(SortNodes(ns, ascending)) == SortByDegree(NodeTerms(ns), ascending)
  {
    if ns != [] {
      var k := |ns| - 1;
      SortNodesTerms(ns[..k], ascending);
      InsertNodeTerms(ns[k], SortNodes(ns[..k], ascending), ascending);
      assert NodeTerms(ns)[..k] == NodeTerms(ns[..k]);
    }
  }
}
