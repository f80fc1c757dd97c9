/** The value-level meaning of the sparse polynomial term lists: a polynomial
    is a sequence of (coefficient, degree) terms; the canonical form keeps
    degrees strictly decreasing and never stores a zero coefficient. The
    functions here are the specifications that the linked-list methods of
    the calculators are proved against, and the lemmas state what the
    programs promise about them. */
module PolyTerms {
  import opened Wrappers

  /** One term: coefficient times x to the power degree. */
  datatype Term = Term(coef: int, degree: nat)

  /** Degrees strictly decrease along the sequence (no degree twice). */
  predicate Descending(ts: seq<Term>)
  {
    forall i, j :: 0 <= i < j < |ts| ==> ts[i].degree > ts[j].degree
  }

  /** Degrees never increase along the sequence (equal neighbours allowed). */
  predicate NonIncreasing(ts: seq<Term>)
  {
    forall i, j :: 0 <= i < j < |ts| ==> ts[i].degree >= ts[j].degree
  }

  /** No stored term has coefficient zero. */
  predicate NoZero(ts: seq<Term>)
  {
    forall i :: 0 <= i < |ts| ==> ts[i].coef != 0
  }

  /** The canonical form: strictly descending degrees and no zero term. */
  predicate Canonical(ts: seq<Term>)
  {
    Descending(ts) && NoZero(ts)
  }

  /** Every degree in ts is below b. */
  predicate AllBelow(ts: seq<Term>, b: nat)
  {
    forall i :: 0 <= i < |ts| ==> ts[i].degree < b
  }

  /** No term of ts has degree d. */
  predicate Absent(ts: seq<Term>, d: nat)
  {
    forall i :: 0 <= i < |ts| ==> ts[i].degree != d
  }

  /** The coefficient of x^d in the polynomial the terms denote: the sum of
      the coefficients of all terms of degree d (in canonical form there is
      at most one). */
  function CoefAt(ts: seq<Term>, d: nat): int
  {
    if ts == [] then 0
    else (if ts[0].degree == d then ts[0].coef else 0) + CoefAt(ts[1..], d)
  }

  function Pow(x: int, n: nat): int
  {
    if n == 0 then 1 else x * Pow(x, n - 1)
  }

  /** The value of the polynomial at x. */
  function Eval(ts: seq<Term>, x: int): int
  {
    if ts == [] then 0 else ts[0].coef * Pow(x, ts[0].degree) + Eval(ts[1..], x)
  }

  // ---------------------------------------------------------------------
  // Basic facts about CoefAt and Eval

  lemma {:induction false} CoefAppend(a: seq<Term>, b: seq<Term>, d: nat)
    ensures CoefAt(a + b, d) == CoefAt(a, d) + CoefAt(b, d)
  {
    if a != [] {
      assert (a + b)[1..] == a[1..] + b;
      CoefAppend(a[1..], b, d);
    } else {
      assert a + b == b;
    }
  }

  lemma {:induction false} CoefAbsent(ts: seq<Term>, d: nat)
    requires Absent(ts, d)
    ensures CoefAt(ts, d) == 0
  {
    if ts != [] {
      CoefAbsent(ts[1..], d);
    }
  }

  /** In a descending list the head's degree carries exactly the head's coefficient. */
  lemma CoefHead(ts: seq<Term>)
    requires Descending(ts) && ts != []
    ensures CoefAt(ts, ts[0].degree) == ts[0].coef
  {
    CoefAbsent(ts[1..], ts[0].degree);
  }

  lemma {:induction false} EvalAppend(a: seq<Term>, b: seq<Term>, x: int)
    ensures Eval(a + b, x) == Eval(a, x) + Eval(b, x)
  {
    if a != [] {
      assert (a + b)[1..] == a[1..] + b;
      EvalAppend(a[1..], b, x);
    } else {
      assert a + b == b;
    }
  }

  // ---------------------------------------------------------------------
  // Canonical form is unique

  /** Two canonical term lists with the same coefficient at every degree are
      the same list: the canonical form of a polynomial is unique. */
  lemma {:induction false} CanonicalUnique(p: seq<Term>, q: seq<Term>)
    requires Canonical(p) && Canonical(q)
    requires forall d :: CoefAt(p, d) == CoefAt(q, d)
    ensures p == q
  {
    if p == [] && q == [] {
    } else if p == [] {
      CoefHead(q);
      assert false;
    } else if q == [] {
      CoefHead(p);
      assert false;
    } else if p[0].degree > q[0].degree {
      CoefHead(p);
      CoefAbsent(q, p[0].degree);
      assert false;
    } else if q[0].degree > p[0].degree {
      CoefHead(q);
      CoefAbsent(p, q[0].degree);
      assert false;
    } else {
      CoefHead(p);
      CoefHead(q);
      assert CoefAt(p, p[0].degree) == CoefAt(q, p[0].degree);
      assert p[0] == q[0];
      forall d ensures CoefAt(p[1..], d) == CoefAt(q[1..], d) {
        assert CoefAt(p, d) == CoefAt(q, d);
      }
      CanonicalUnique(p[1..], q[1..]);
      assert p == [p[0]] + p[1..];
      assert q == [q[0]] + q[1..];
    }
  }

  // ---------------------------------------------------------------------
  // add_term: ordered insert with merge on equal degree

  /** The insertion scan of add_term from the node it starts at: skip the
      terms of higher degree, then merge with an equal degree (dropping the
      term if the sum is zero) or insert in front of the first lower degree. */
  function Place(ts: seq<Term>, c: int, d: nat): seq<Term>
  {
    if ts == [] || ts[0].degree < d then [Term(c, d)] + ts
    else if ts[0].degree == d then
      (if ts[0].coef + c == 0 then ts[1..] else [Term(ts[0].coef + c, d)] + ts[1..])
    else [ts[0]] + Place(ts[1..], c, d)
  }

  /** add_term(c, d): a zero coefficient leaves the list as it is. */
  function Insert(ts: seq<Term>, c: int, d: nat): seq<Term>
  {
    if c == 0 then ts else Place(ts, c, d)
  }

  lemma {:induction false} PlaceCoef(ts: seq<Term>, c: int, d: nat, e: nat)
    ensures CoefAt(Place(ts, c, d), e) == CoefAt(ts, e) + (if e == d then c else 0)
  {
    if ts == [] || ts[0].degree < d {
      CoefAppend([Term(c, d)], ts, e);
    } else if ts[0].degree == d {
      if ts[0].coef + c != 0 {
        CoefAppend([Term(ts[0].coef + c, d)], ts[1..], e);
      }
    } else {
      PlaceCoef(ts[1..], c, d, e);
      CoefAppend([ts[0]], Place(ts[1..], c, d), e);
    }
  }

  /** add_term changes the coefficient at degree d by c and no other
      coefficient, whatever the order of the list. */
  lemma InsertCoef(ts: seq<Term>, c: int, d: nat, e: nat)
    ensures CoefAt(Insert(ts, c, d), e) == CoefAt(ts, e) + (if e == d then c else 0)
  {
    if c != 0 { PlaceCoef(ts, c, d, e); }
  }

  lemma {:induction false} PlaceBelow(ts: seq<Term>, c: int, d: nat, b: nat)
    requires AllBelow(ts, b) && d < b
    ensures AllBelow(Place(ts, c, d), b)
  {
    if ts == [] || ts[0].degree < d {
    } else if ts[0].degree == d {
    } else {
      PlaceBelow(ts[1..], c, d, b);
    }
  }

  lemma {:induction false} PlaceCanonical(ts: seq<Term>, c: int, d: nat)
    requires Canonical(ts) && c != 0
    ensures Canonical(Place(ts, c, d))
  {
    if ts == [] || ts[0].degree < d {
    } else if ts[0].degree == d {
    } else {
      PlaceCanonical(ts[1..], c, d);
      PlaceBelow(ts[1..], c, d, ts[0].degree);
    }
  }

  /** add_term keeps the canonical form: degrees strictly decreasing and no
      zero coefficient. */
  lemma InsertCanonical(ts: seq<Term>, c: int, d: nat)
    requires Canonical(ts)
    ensures Canonical(Insert(ts, c, d))
  {
    if c != 0 { PlaceCanonical(ts, c, d); }
  }

  /** add_term(c, d) followed by add_term(-c, d) gives back the original
      canonical list; in particular a degree that was absent is absent again. */
  lemma InsertCancel(ts: seq<Term>, c: int, d: nat)
    requires Canonical(ts)
    ensures Insert(Insert(ts, c, d), -c, d) == ts
  {
    var once := Insert(ts, c, d);
    InsertCanonical(ts, c, d);
    InsertCanonical(once, -c, d);
    forall e ensures CoefAt(Insert(once, -c, d), e) == CoefAt(ts, e) {
      InsertCoef(ts, c, d, e);
      InsertCoef(once, -c, d, e);
    }
    CanonicalUnique(Insert(once, -c, d), ts);
  }

  // ---------------------------------------------------------------------
  // __add__: the two-cursor merge

  /** A term survives into a sum only if its coefficient is not zero. */
  function Keep(t: Term): seq<Term>
  {
    if t.coef != 0 then [t] else []
  }

  /** __add__: walk both lists from the head, emit the higher degree, or the
      sum of the two coefficients on equal degrees, dropping zero sums. */
  function Merge(p: seq<Term>, q: seq<Term>): seq<Term>
    decreases |p| + |q|
  {
    if p == [] && q == [] then []
    else if p != [] && (q == [] || p[0].degree > q[0].degree) then Keep(p[0]) + Merge(p[1..], q)
    else if q != [] && (p == [] || q[0].degree > p[0].degree) then Keep(q[0]) + Merge(p, q[1..])
    else Keep(Term(p[0].coef + q[0].coef, p[0].degree)) + Merge(p[1..], q[1..])
  }

  /** The sum's coefficient at every degree is the sum of the operands'
      coefficients (for operands in any order). */
  lemma {:induction false} MergeCoef(p: seq<Term>, q: seq<Term>, d: nat)
    ensures CoefAt(Merge(p, q), d) == CoefAt(p, d) + CoefAt(q, d)
    decreases |p| + |q|
  {
    if p == [] && q == [] {
    } else if p != [] && (q == [] || p[0].degree > q[0].degree) {
      MergeCoef(p[1..], q, d);
      CoefAppend(Keep(p[0]), Merge(p[1..], q), d);
    } else if q != [] && (p == [] || q[0].degree > p[0].degree) {
      MergeCoef(p, q[1..], d);
      CoefAppend(Keep(q[0]), Merge(p, q[1..]), d);
    } else {
      MergeCoef(p[1..], q[1..], d);
      CoefAppend(Keep(Term(p[0].coef + q[0].coef, p[0].degree)), Merge(p[1..], q[1..]), d);
    }
  }

  /** No zero coefficient ever reaches the sum. */
  lemma {:induction false} MergeNoZero(p: seq<Term>, q: seq<Term>)
    ensures NoZero(Merge(p, q))
    decreases |p| + |q|
  {
    if p == [] && q == [] {
    } else if p != [] && (q == [] || p[0].degree > q[0].degree) {
      MergeNoZero(p[1..], q);
    } else if q != [] && (p == [] || q[0].degree > p[0].degree) {
      MergeNoZero(p, q[1..]);
    } else {
      MergeNoZero(p[1..], q[1..]);
    }
  }

  lemma {:induction false} MergeBelow(p: seq<Term>, q: seq<Term>, b: nat)
    requires AllBelow(p, b) && AllBelow(q, b)
    ensures AllBelow(Merge(p, q), b)
    decreases |p| + |q|
  {
    if p == [] && q == [] {
    } else if p != [] && (q == [] || p[0].degree > q[0].degree) {
      MergeBelow(p[1..], q, b);
    } else if q != [] && (p == [] || q[0].degree > p[0].degree) {
      MergeBelow(p, q[1..], b);
    } else {
      MergeBelow(p[1..], q[1..], b);
    }
  }

  lemma {:induction false} MergeDescending(p: seq<Term>, q: seq<Term>)
    requires Descending(p) && Descending(q)
    ensures Descending(Merge(p, q))
    decreases |p| + |q|
  {
    if p == [] && q == [] {
    } else if p != [] && (q == [] || p[0].degree > q[0].degree) {
      MergeDescending(p[1..], q);
      MergeBelow(p[1..], q, p[0].degree);
      KeepDescending(p[0], Merge(p[1..], q));
    } else if q != [] && (p == [] || q[0].degree > p[0].degree) {
      MergeDescending(p, q[1..]);
      MergeBelow(p, q[1..], q[0].degree);
      KeepDescending(q[0], Merge(p, q[1..]));
    } else {
      MergeDescending(p[1..], q[1..]);
      MergeBelow(p[1..], q[1..], p[0].degree);
      KeepDescending(Term(p[0].coef + q[0].coef, p[0].degree), Merge(p[1..], q[1..]));
    }
  }

  lemma KeepDescending(t: Term, rest: seq<Term>)
    requires Descending(rest) && AllBelow(rest, t.degree)
    ensures Descending(Keep(t) + rest)
  {
  }

  /** The sum of two canonical polynomials is canonical. */
  lemma MergeCanonical(p: seq<Term>, q: seq<Term>)
    requires Canonical(p) && Canonical(q)
    ensures Canonical(Merge(p, q))
  {
    MergeDescending(p, q);
    MergeNoZero(p, q);
  }

  /** Addition of canonical polynomials is commutative. */
  lemma MergeCommutes(p: seq<Term>, q: seq<Term>)
    requires Canonical(p) && Canonical(q)
    ensures Merge(p, q) == Merge(q, p)
  {
    MergeCanonical(p, q);
    MergeCanonical(q, p);
    forall d ensures CoefAt(Merge(p, q), d) == CoefAt(Merge(q, p), d) {
      MergeCoef(p, q, d);
      MergeCoef(q, p, d);
    }
    CanonicalUnique(Merge(p, q), Merge(q, p));
  }

  /** The zero polynomial is a neutral element of addition. */
  lemma {:induction false} MergeZero(p: seq<Term>)
    requires NoZero(p)
    ensures Merge(p, []) == p && Merge([], p) == p
  {
    if p != [] {
      MergeZero(p[1..]);
      assert p == [p[0]] + p[1..];
    }
  }

  // ---------------------------------------------------------------------
  // Rebuilding by repeated add_term (clone, and the negation in __sub__)

  /** The list obtained by calling add_term on an empty polynomial with each
      term of ts in turn. */
  function Rebuild(ts: seq<Term>): seq<Term>
  {
    if ts == [] then []
    else Insert(Rebuild(ts[..|ts| - 1]), ts[|ts| - 1].coef, ts[|ts| - 1].degree)
  }

  lemma {:induction false} RebuildCanonical(ts: seq<Term>)
    ensures Canonical(Rebuild(ts))
  {
    if ts != [] {
      RebuildCanonical(ts[..|ts| - 1]);
      InsertCanonical(Rebuild(ts[..|ts| - 1]), ts[|ts| - 1].coef, ts[|ts| - 1].degree);
    }
  }

  lemma {:induction false} RebuildCoef(ts: seq<Term>, d: nat)
    ensures CoefAt(Rebuild(ts), d) == CoefAt(ts, d)
  {
    if ts != [] {
      var n := |ts| - 1;
      RebuildCoef(ts[..n], d);
      InsertCoef(Rebuild(ts[..n]), ts[n].coef, ts[n].degree, d);
      assert ts == ts[..n] + [ts[n]];
      CoefAppend(ts[..n], [ts[n]], d);
    }
  }

  /** Rebuilding gives the canonical form of any term list, and a canonical
      list is rebuilt as itself: clone() of a canonical polynomial is an
      equal polynomial. */
  lemma RebuildIsCanonicalForm(ts: seq<Term>)
    ensures Canonical(Rebuild(ts))
    ensures forall d :: CoefAt(Rebuild(ts), d) == CoefAt(ts, d)
    ensures Canonical(ts) ==> Rebuild(ts) == ts
  {
    RebuildCanonical(ts);
    forall d ensures CoefAt(Rebuild(ts), d) == CoefAt(ts, d) {
      RebuildCoef(ts, d);
    }
    if Canonical(ts) {
      CanonicalUnique(Rebuild(ts), ts);
    }
  }

  // ---------------------------------------------------------------------
  // __sub__

  function Negate(ts: seq<Term>): seq<Term>
  {
    seq(|ts|, i requires 0 <= i < |ts| => Term(-ts[i].coef, ts[i].degree))
  }

  lemma {:induction false} NegateCoef(ts: seq<Term>, d: nat)
    ensures CoefAt(Negate(ts), d) == -CoefAt(ts, d)
  {
    if ts != [] {
      assert Negate(ts)[1..] == Negate(ts[1..]);
      NegateCoef(ts[1..], d);
    }
  }

  lemma NegateCanonical(ts: seq<Term>)
    requires Canonical(ts)
    ensures Canonical(Negate(ts))
  {
  }

  /** __sub__: the negated other operand is rebuilt through add_term, then added. */
  function Sub(p: seq<Term>, q: seq<Term>): seq<Term>
  {
    Merge(p, Rebuild(Negate(q)))
  }

  /** The difference's coefficient at every degree is the difference of the
      operands' coefficients. */
  lemma SubCoef(p: seq<Term>, q: seq<Term>, d: nat)
    ensures CoefAt(Sub(p, q), d) == CoefAt(p, d) - CoefAt(q, d)
  {
    MergeCoef(p, Rebuild(Negate(q)), d);
    RebuildCoef(Negate(q), d);
    NegateCoef(q, d);
  }

  /** On a canonical subtrahend, __sub__ is exactly self + negate(other). */
  lemma SubIsAddNegation(p: seq<Term>, q: seq<Term>)
    requires Canonical(q)
    ensures Sub(p, q) == Merge(p, Negate(q))
  {
    NegateCanonical(q);
    RebuildIsCanonicalForm(Negate(q));
  }

  /** The difference of canonical polynomials is canonical, and p - p is the
      zero polynomial. */
  lemma SubCanonical(p: seq<Term>, q: seq<Term>)
    requires Canonical(p)
    ensures Canonical(Sub(p, q))
    ensures p == q ==> Sub(p, q) == []
  {
    RebuildCanonical(Negate(q));
    MergeCanonical(p, Rebuild(Negate(q)));
    if p == q {
      forall d ensures CoefAt(Sub(p, q), d) == CoefAt([], d) {
        SubCoef(p, q, d);
      }
      CanonicalUnique(Sub(p, q), []);
    }
  }

  // ---------------------------------------------------------------------
  // delete_term and search_term: the first term of a degree

  /** Index of the first term of degree d, or |ts| if there is none. */
  function FirstIndex(ts: seq<Term>, d: nat): (k: nat)
    ensures k <= |ts|
    ensures forall j :: 0 <= j < k ==> ts[j].degree != d
    ensures k < |ts| ==> ts[k].degree == d
  {
    if ts == [] then 0 else if ts[0].degree == d then 0 else 1 + FirstIndex(ts[1..], d)
  }

  /** delete_term(d): unlink the first term of degree d, if any. */
  function Delete(ts: seq<Term>, d: nat): seq<Term>
  {
    var k := FirstIndex(ts, d);
    if k < |ts| then ts[..k] + ts[k + 1..] else ts
  }

  /** search_term(d): the coefficient of the first term of degree d, or None. */
  function Search(ts: seq<Term>, d: nat): Option<int>
  {
    var k := FirstIndex(ts, d);
    if k < |ts| then Some(ts[k].coef) else None
  }

  /** On a canonical list, search_term finds exactly the (non-zero)
      coefficient of x^d, and None means the coefficient is zero. */
  lemma SearchCanonical(ts: seq<Term>, d: nat)
    requires Canonical(ts)
    ensures Search(ts, d) == (if CoefAt(ts, d) == 0 then None else Some(CoefAt(ts, d)))
  {
    var k := FirstIndex(ts, d);
    if k < |ts| {
      assert ts == ts[..k] + ts[k..];
      CoefAbsent(ts[..k], d);
      CoefAppend(ts[..k], ts[k..], d);
      CoefHead(ts[k..]);
    } else {
      CoefAbsent(ts, d);
    }
  }

  /** delete_term on a canonical list keeps it canonical and sets the
      coefficient of x^d to zero, leaving every other degree alone; it
      reports a removal exactly when search_term would have found the term. */
  lemma DeleteCanonical(ts: seq<Term>, d: nat)
    requires Canonical(ts)
    ensures Canonical(Delete(ts, d))
    ensures forall e :: CoefAt(Delete(ts, d), e) == if e == d then 0 else CoefAt(ts, e)
    ensures (Delete(ts, d) == ts) <==> Search(ts, d).None?
  {
    var k := FirstIndex(ts, d);
    if k < |ts| {
      var r := ts[..k] + ts[k + 1..];
      assert ts == ts[..k] + [ts[k]] + ts[k + 1..];
      assert |r| < |ts|;
      forall e ensures CoefAt(r, e) == if e == d then 0 else CoefAt(ts, e) {
        assert CoefAt([ts[k]], e) == if e == d then ts[k].coef else 0;
        CoefAppend(ts[..k] + [ts[k]], ts[k + 1..], e);
        CoefAppend(ts[..k], [ts[k]], e);
        CoefAppend(ts[..k], ts[k + 1..], e);
        if e == d {
          CoefAbsent(ts[..k], d);
          CoefAbsent(ts[k + 1..], d);
        }
      }
    } else {
      CoefAbsent(ts, d);
    }
  }

  // ---------------------------------------------------------------------
  // sort_terms: a stable sort by degree

  /** a must come strictly before b in the requested direction. */
  predicate Before(a: Term, b: Term, ascending: bool)
  {
    if ascending then a.degree < b.degree else a.degree > b.degree
  }

  /** Degrees in the requested direction, equal degrees allowed side by side. */
  predicate Ordered(ts: seq<Term>, ascending: bool)
  {
    forall i, j :: 0 <= i < j < |ts| ==> !Before(ts[j], ts[i], ascending)
  }

  /** Insert t after every term that does not come strictly after it. */
  function InsertOrdered(t: Term, s: seq<Term>, ascending: bool): seq<Term>
  {
    if s == [] then [t]
    else if Before(t, s[0], ascending) then [t] + s
    else [s[0]] + InsertOrdered(t, s[1..], ascending)
  }

  /** The stable sort by degree (Python's list.sort with key=degree and
      reverse=not ascending), written as an insertion sort. */
  function SortByDegree(ts: seq<Term>, ascending: bool): seq<Term>
  {
    if ts == [] then []
    else InsertOrdered(ts[|ts| - 1], SortByDegree(ts[..|ts| - 1], ascending), ascending)
  }

  lemma {:induction false} InsertOrderedSpec(t: Term, s: seq<Term>, ascending: bool)
    requires Ordered(s, ascending)
    ensures Ordered(InsertOrdered(t, s, ascending), ascending)
    ensures multiset(InsertOrdered(t, s, ascending)) == multiset(s) + multiset{t}
  {
    InsertOrderedPerm(t, s, ascending);
    InsertOrderedSorted(t, s, ascending);
  }

  lemma {:induction false} InsertOrderedPerm(t: Term, s: seq<Term>, ascending: bool)
    ensures multiset(InsertOrdered(t, s, ascending)) == multiset(s) + multiset{t}
  {
    if s != [] && !Before(t, s[0], ascending) {
      InsertOrderedPerm(t, s[1..], ascending);
      assert s == [s[0]] + s[1..];
    }
  }

  lemma {:induction false} InsertOrderedSorted(t: Term, s: seq<Term>, ascending: bool)
    requires Ordered(s, ascending)
    ensures Ordered(InsertOrdered(t, s, ascending), ascending)
  {
    if s != [] && !Before(t, s[0], ascending) {
      InsertOrderedSorted(t, s[1..], ascending);
      InsertOrderedPerm(t, s[1..], ascending);
      var r := InsertOrdered(t, s[1..], ascending);
      forall i | 0 <= i < |r| ensures !Before(r[i], s[0], ascending) {
        assert r[i] in multiset(r);
        assert r[i] == t || r[i] in multiset(s[1..]);
        if r[i] != t {
          var j :| 0 <= j < |s[1..]| && s[1..][j] == r[i];
          assert s[j + 1] == r[i];
        }
      }
    }
  }

  /** sort_terms rearranges the same terms (a permutation) into the
      requested order. */
  lemma {:induction false} SortByDegreeSpec(ts: seq<Term>, ascending: bool)
    ensures Ordered(SortByDegree(ts, ascending), ascending)
    ensures multiset(SortByDegree(ts, ascending)) == multiset(ts)
  {
    if ts != [] {
      var n := |ts| - 1;
      SortByDegreeSpec(ts[..n], ascending);
      InsertOrderedSpec(ts[n], SortByDegree(ts[..n], ascending), ascending);
      assert ts == ts[..n] + [ts[n]];
    }
  }

  /** Sorting a descending list in descending order changes nothing. */
  lemma {:induction false} SortDescendingIdentity(ts: seq<Term>)
    requires NonIncreasing(ts)
    ensures SortByDegree(ts, false) == ts
  {
    if ts != [] {
      var n := |ts| - 1;
      SortDescendingIdentity(ts[..n]);
      AppendLast(ts[..n], ts[n]);
      assert ts == ts[..n] + [ts[n]];
    }
  }

  lemma {:induction false} AppendLast(s: seq<Term>, t: Term)
    requires forall i :: 0 <= i < |s| ==> s[i].degree >= t.degree
    ensures InsertOrdered(t, s, false) == s + [t]
  {
    if s != [] {
      AppendLast(s[1..], t);
      assert s == [s[0]] + s[1..];
    }
  }

  function Reverse(ts: seq<Term>): seq<Term>
  {
    seq(|ts|, i requires 0 <= i < |ts| => ts[|ts| - 1 - i])
  }

  /** Sorting a strictly descending list in ascending order reverses it. */
  lemma {:induction false} SortAscendingReverses(ts: seq<Term>)
    requires Descending(ts)
    ensures SortByDegree(ts, true) == Reverse(ts)
  {
    if ts != [] {
      var n := |ts| - 1;
      SortAscendingReverses(ts[..n]);
      assert Reverse(ts) == [ts[n]] + Reverse(ts[..n]);
    }
  }
}
