/** The dictionary-backed polynomial of the second calculator
    (flet_app/pol_model.py): DynamicPolynomial keeps a dictionary from
    degree to coefficient and deletes a degree whose coefficient becomes
    zero; _parse_poly reads the calculator's text fields into one.

    The dictionary is a `map<nat, int>` field that the methods reassign.
    Python iterates a set of degrees in an order of its own; the loops of
    __add__ and __sub__ here pick the next degree with `:|`, so they are
    proved for every order. */
module DynamicPoly {
  import opened Text
  import opened PolyTerms
  import opened PolyText
  import opened TermScanner

  // ---------------------------------------------------------------------
  // The dictionary

  /** dict.get(degree, 0). */
  function Coef(m: map<nat, int>, d: nat): int
  {
    if d in m then m[d] else 0
  }

  /** No degree is stored with coefficient zero. */
  predicate NoZeroValues(m: map<nat, int>)
  {
    forall d :: d in m ==> m[d] != 0
  }

  /** set_coefficient on the dictionary: store a non-zero coefficient,
      delete the degree on zero. */
  function Assigned(m: map<nat, int>, d: nat, c: int): (r: map<nat, int>)
    ensures forall e :: Coef(r, e) == if e == d then c else Coef(m, e)
    ensures NoZeroValues(m) ==> NoZeroValues(r)
    ensures d in r <==> c != 0
  {
    if c != 0 then m[d := c] else m - {d}
  }

  /** Two dictionaries without zero coefficients that agree on every
      coefficient are the same dictionary. */
  lemma SameCoefficients(a: map<nat, int>, b: map<nat, int>)
    requires NoZeroValues(a) && NoZeroValues(b)
    requires forall d :: Coef(a, d) == Coef(b, d)
    ensures a == b
  {
    forall d | d in a ensures d in b && a[d] == b[d] {
      assert Coef(a, d) == Coef(b, d);
    }
    forall d | d in b ensures d in a {
      assert Coef(a, d) == Coef(b, d);
    }
  }

  /** get_coefficient answers 0 exactly for the degrees that are not
      stored. */
  lemma GetCoefficientAbsent(m: map<nat, int>, d: nat)
    requires NoZeroValues(m)
    ensures Coef(m, d) == 0 <==> d !in m
  {
  }

  // ---------------------------------------------------------------------
  // max and sorted over the degrees

  lemma MaxExists(s: set<nat>)
    requires s != {}
    ensures exists r :: r in s && forall k :: k in s ==> k <= r
  {
    var x :| x in s;
    if s != {x} {
      MaxExists(s - {x});
      var y :| y in s - {x} && forall k :: k in s - {x} ==> k <= y;
      var r := if x > y then x else y;
      forall k | k in s ensures k <= r {
        if k != x {
          assert k in s - {x};
        }
      }
    } else {
      assert forall k :: k in s ==> k <= x;
    }
  }

  /** max(degrees). */
  function MaxKey(s: set<nat>): (r: nat)
    requires s != {}
    ensures r in s && forall k :: k in s ==> k <= r
  {
    MaxExists(s);
    var r :| r in s && forall k :: k in s ==> k <= r; r
  }

  /** sorted(degrees, reverse=True): the degrees from the highest down. */
  function SortedKeys(s: set<nat>): (r: seq<nat>)
    ensures forall i, j :: 0 <= i < j < |r| ==> r[i] > r[j]
    ensures forall k :: k in s <==> k in r
    decreases s
  {
    if s == {} then []
    else
      var m := MaxKey(s);
      [m] + SortedKeys(s - {m})
  }

  /** The terms of the dictionary at the given degrees, in that order. */
  function TermsAt(m: map<nat, int>, ks: seq<nat>): (r: seq<Term>)
    ensures |r| == |ks|
    ensures forall i :: 0 <= i < |ks| ==> r[i] == Term(Coef(m, ks[i]), ks[i])
  {
    if ks == [] then [] else [Term(Coef(m, ks[0]), ks[0])] + TermsAt(m, ks[1..])
  }

  /** The dictionary as a term list from the highest degree down: the order
      in which __str__ prints it. */
  function Listed(m: map<nat, int>): seq<Term>
  {
    TermsAt(m, SortedKeys(m.Keys))
  }

  /** Read at the degrees of a strictly descending list, the coefficient at
      d is the dictionary's when d is listed and 0 otherwise. */
  lemma {:induction false} TermsAtCoef(m: map<nat, int>, ks: seq<nat>, d: nat)
    requires forall i, j :: 0 <= i < j < |ks| ==> ks[i] > ks[j]
    ensures CoefAt(TermsAt(m, ks), d) == if d in ks then Coef(m, d) else 0
  {
    if ks != [] {
      var r := TermsAt(m, ks);
      assert r[1..] == TermsAt(m, ks[1..]);
      TermsAtCoef(m, ks[1..], d);
      assert d in ks <==> d == ks[0] || d in ks[1..];
      if d == ks[0] {
        assert d !in ks[1..];
      }
    }
  }

  /** The listed form of a dictionary without zero coefficients is a
      canonical term list with the dictionary's coefficient at every degree. */
  lemma ListedCanonical(m: map<nat, int>)
    requires NoZeroValues(m)
    ensures Canonical(Listed(m))
    ensures forall d :: CoefAt(Listed(m), d) == Coef(m, d)
  {
    var ks := SortedKeys(m.Keys);
    forall d ensures CoefAt(Listed(m), d) == Coef(m, d) {
      TermsAtCoef(m, ks, d);
    }
  }

  // ---------------------------------------------------------------------
  // __add__ and __sub__ on dictionaries

  /** The dictionary __add__ builds. */
  function Sum(a: map<nat, int>, b: map<nat, int>): (r: map<nat, int>)
    ensures forall d :: Coef(r, d) == Coef(a, d) + Coef(b, d)
    ensures NoZeroValues(r)
  {
    map d | d in a.Keys + b.Keys && Coef(a, d) + Coef(b, d) != 0 :: Coef(a, d) + Coef(b, d)
  }

  /** The dictionary __sub__ builds. */
  function Difference(a: map<nat, int>, b: map<nat, int>): (r: map<nat, int>)
    ensures forall d :: Coef(r, d) == Coef(a, d) - Coef(b, d)
    ensures NoZeroValues(r)
  {
    map d | d in a.Keys + b.Keys && Coef(a, d) - Coef(b, d) != 0 :: Coef(a, d) - Coef(b, d)
  }

  /** p + q == q + p. */
  lemma SumCommutes(a: map<nat, int>, b: map<nat, int>)
    ensures Sum(a, b) == Sum(b, a)
  {
    SameCoefficients(Sum(a, b), Sum(b, a));
  }

  /** p - p is the empty polynomial. */
  lemma DifferenceSelf(a: map<nat, int>)
    ensures Difference(a, a) == map[]
  {
    SameCoefficients(Difference(a, a), map[]);
  }

  /** Adding the empty polynomial gives p back. */
  lemma SumEmpty(a: map<nat, int>)
    requires NoZeroValues(a)
    ensures Sum(a, map[]) == a
  {
    SameCoefficients(Sum(a, map[]), a);
  }

  /** (p - q) + q == p. */
  lemma DifferenceThenSum(a: map<nat, int>, b: map<nat, int>)
    requires NoZeroValues(a)
    ensures Sum(Difference(a, b), b) == a
  {
    SameCoefficients(Sum(Difference(a, b), b), a);
  }

  // ---------------------------------------------------------------------
  // _parse_poly

  /** The terms _parse_poly reads: nothing for a blank text, otherwise the
      findall matches of the text after strip(), the removal of spaces and a
      '+' in front. */
  function ReadTerms(s: string): seq<Term>
  {
    var t := Normalize(s);
    if t == [] then [] else ScanTerms(t)
  }

  /** The terms added one by one to the dictionary with set_coefficient of
      the existing coefficient plus the new one. */
  function Accumulate(m: map<nat, int>, ts: seq<Term>): map<nat, int>
    decreases |ts|
  {
    if ts == [] then m
    else Accumulate(Assigned(m, ts[0].degree, Coef(m, ts[0].degree) + ts[0].coef), ts[1..])
  }

  /** The dictionary _parse_poly returns. */
  function Parsed(s: string): map<nat, int>
  {
    Accumulate(map[], ReadTerms(s))
  }

  /** Accumulating sums the coefficients read at each degree on top of what
      was stored, and never stores a zero. */
  lemma {:induction false} AccumulateCoef(m: map<nat, int>, ts: seq<Term>)
    requires NoZeroValues(m)
    ensures NoZeroValues(Accumulate(m, ts))
    ensures forall d :: Coef(Accumulate(m, ts), d) == Coef(m, d) + CoefAt(ts, d)
    decreases |ts|
  {
    if ts != [] {
      var t := ts[0];
      var m' := Assigned(m, t.degree, Coef(m, t.degree) + t.coef);
      AccumulateCoef(m', ts[1..]);
    }
  }

  /** _parse_poly sums repeated degrees ("2x+3x" is 5x) and stores no zero
      coefficient. */
  lemma ParseSums(s: string)
    ensures NoZeroValues(Parsed(s))
    ensures forall d :: Coef(Parsed(s), d) == CoefAt(ReadTerms(s), d)
  {
    AccumulateCoef(map[], ReadTerms(s));
  }

  /** A blank text is the empty polynomial. */
  lemma ParseBlank(s: string)
    requires RemoveAll(Strip(s), ' ') == []
    ensures Parsed(s) == map[]
  {
  }

  /** Reading back what __str__ prints gives the same dictionary: the
      empty one prints as "0", which is read as a zero constant and not
      stored. */
  lemma DynamicRoundTrip(m: map<nat, int>)
    requires NoZeroValues(m)
    ensures Parsed(Format(Listed(m))) == m
  {
    ListedCanonical(m);
    if m == map[] {
      assert Listed(m) == [];
      ParseZero();
    } else {
      NonEmptyRoundTrip(m);
    }
  }

  /** "0" is the zero constant, which is not stored. */
  lemma ParseZero()
    ensures Parsed("0") == map[]
  {
    NormalizeDigit('0');
    assert Normalize("0") == ['+'] + "0" + [];
    ScanConstant('+', "0", []);
    assert DigitsValue("0") == 0;
    assert ReadTerms("0") == [Term(0, 0)];
  }

  lemma NonEmptyRoundTrip(m: map<nat, int>)
    requires NoZeroValues(m) && m != map[]
    ensures Parsed(Format(Listed(m))) == m
  {
    var ts := Listed(m);
    ListedCanonical(m);
    assert ts != [] by {
      var d :| d in m;
      assert CoefAt(ts, d) != 0;
    }
    NormalizeFormat(ts);
    TokensJoined(ts);
    ScanTokens(ts);
    assert ReadTerms(Format(ts)) == ts;
    AccumulateCoef(map[], ts);
    SameCoefficients(Parsed(Format(ts)), m);
  }

  // ---------------------------------------------------------------------
  // The class

  class DynamicPolynomial {
    var coefficients: map<nat, int>

    ghost predicate Valid()
      reads this
    {
      NoZeroValues(coefficients)
    }

    constructor ()
      ensures Valid() && coefficients == map[]
    {
      coefficients := map[];
    }

    /** set_coefficient(degree, coefficient). */
    method SetCoefficient(degree: nat, coefficient: int)
      modifies this
      ensures coefficients == Assigned(old(coefficients), degree, coefficient)
    {
      if coefficient != 0 {
        coefficients := coefficients[degree := coefficient];
      } else if degree in coefficients {
        coefficients := coefficients - {degree};
      }
    }

    /** get_coefficient(degree): the stored coefficient, 0 when the degree
        is not stored; nothing is inserted. */
    function GetCoefficient(degree: nat): int
      reads this
    {
      Coef(coefficients, degree)
    }

    /** get_degree(): the highest stored degree, 0 for the empty
        polynomial. */
    function GetDegree(): (r: nat)
      reads this
      ensures coefficients == map[] ==> r == 0
      ensures coefficients != map[] ==> r in coefficients && forall d :: d in coefficients ==> d <= r
    {
      if coefficients == map[] then 0 else MaxKey(coefficients.Keys)
    }

    /** The dictionary as a term list from the highest degree down. */
    ghost function Terms(): seq<Term>
      reads this
    {
      Listed(coefficients)
    }

    /** __str__: "0" when empty, otherwise the terms from the highest
        degree down, the first with only a minus sign, the others after
        " + " or " - ", with leading spaces and plus signs stripped. */
    method ToString() returns (s: string)
      requires Valid()
      ensures s == Format(Terms())
    {
      if coefficients == map[] {
        return "0";
      }
      s := FormatDictionary(coefficients);
    }
  }

  /** __str__ on the dictionary itself: the pieces joined, with leading
      spaces and plus signs stripped. */
  method FormatDictionary(m: map<nat, int>) returns (s: string)
    requires NoZeroValues(m) && m != map[]
    ensures s == Format(Listed(m))
  {
    var terms := DictionaryPieces(m);
    assert Listed(m) != [] by {
      var d :| d in m;
      assert d in SortedKeys(m.Keys);
    }
    s := LStrip(Concat(terms), {' ', '+'});
  }

  /** The loop of __str__ over the degrees from the highest down. */
  method DictionaryPieces(m: map<nat, int>) returns (terms: seq<string>)
    requires NoZeroValues(m)
    ensures terms == Pieces(Listed(m), true)
  {
    var degrees := SortedKeys(m.Keys);
    terms := [];
    for i := 0 to |degrees|
      invariant terms + Pieces(Listed(m)[i..], i == 0) == Pieces(Listed(m), true)
    {
      terms := AppendPiece(m, degrees, i, terms);
    }
    assert Listed(m)[|degrees|..] == [];
  }

  /** One round of the loop of __str__: the piece of the i-th highest
      degree is appended. */
  method AppendPiece(m: map<nat, int>, degrees: seq<nat>, i: nat, terms: seq<string>) returns (terms': seq<string>)
    requires NoZeroValues(m) && degrees == SortedKeys(m.Keys) && i < |degrees|
    requires terms + Pieces(Listed(m)[i..], i == 0) == Pieces(Listed(m), true)
    ensures terms' + Pieces(Listed(m)[i + 1..], false) == Pieces(Listed(m), true)
  {
    var degree := degrees[i];
    ListedAt(m, i);
    var piece := Piece(m[degree], degree, i == 0);
    PiecesAt(Listed(m), i, i == 0);
    Associative(terms, [piece], Pieces(Listed(m)[i + 1..], false));
    terms' := terms + [piece];
  }

  /** The i-th listed term is the dictionary's entry at the i-th highest
      degree. */
  lemma ListedAt(m: map<nat, int>, i: nat)
    requires NoZeroValues(m) && i < |SortedKeys(m.Keys)|
    ensures SortedKeys(m.Keys)[i] in m
    ensures Listed(m)[i] == Term(m[SortedKeys(m.Keys)[i]], SortedKeys(m.Keys)[i])
    ensures Listed(m)[i].coef != 0
  {
    assert SortedKeys(m.Keys)[i] in SortedKeys(m.Keys);
  }

  /** One piece of __str__: the sign, then the coefficient unless it is 1
      or -1 on a power of x, then "x" or "x^" and the degree. */
  method Piece(coeff: int, degree: nat, first: bool) returns (piece: string)
    requires coeff != 0
    ensures piece == SignString(coeff, first) + Body(Term(coeff, degree))
  {
    var sign := "";
    if first {
      if coeff < 0 {
        sign := "-";
      }
    } else {
      sign := if coeff < 0 then " - " else " + ";
    }
    var coeffAbs := Abs(coeff);
    var body;
    if degree == 0 {
      body := NatToString(coeffAbs);
    } else {
      var coeffStr := "";
      if coeffAbs != 1 {
        coeffStr := NatToString(coeffAbs);
      }
      if degree == 1 {
        body := coeffStr + "x";
      } else {
        body := coeffStr + "x^" + NatToString(degree);
      }
    }
    piece := sign + body;
  }

  /** The pieces from position i on of a list without zero terms: the i-th
      piece, then the others. */
  lemma PiecesAt(ts: seq<Term>, i: nat, first: bool)
    requires i < |ts| && ts[i].coef != 0
    ensures Pieces(ts[i..], first) == [SignString(ts[i].coef, first) + Body(ts[i])] + Pieces(ts[i + 1..], false)
  {
    assert ts[i..][1..] == ts[i + 1..];
  }

  /** __add__: a fresh polynomial with, at every degree of either operand,
      the sum of their coefficients. */
  method Add(p: DynamicPolynomial, q: DynamicPolynomial) returns (result: DynamicPolynomial)
    ensures fresh(result) && result.Valid()
    ensures result.coefficients == Sum(p.coefficients, q.coefficients)
  {
    result := new DynamicPolynomial();
    var allDegrees := p.coefficients.Keys + q.coefficients.Keys;
    var rest := allDegrees;
    while rest != {}
      invariant rest <= allDegrees && result.Valid()
      invariant forall d :: Coef(result.coefficients, d) ==
                            if d in allDegrees - rest then Coef(p.coefficients, d) + Coef(q.coefficients, d) else 0
      decreases rest
    {
      var degree :| degree in rest;
      var coeff1 := p.GetCoefficient(degree);
      var coeff2 := q.GetCoefficient(degree);
      result.SetCoefficient(degree, coeff1 + coeff2);
      rest := rest - {degree};
    }
    SameCoefficients(result.coefficients, Sum(p.coefficients, q.coefficients));
  }

  /** __sub__: a fresh polynomial with, at every degree of either operand,
      the difference of their coefficients. */
  method Subtract(p: DynamicPolynomial, q: DynamicPolynomial) returns (result: DynamicPolynomial)
    ensures fresh(result) && result.Valid()
    ensures result.coefficients == Difference(p.coefficients, q.coefficients)
  {
    result := new DynamicPolynomial();
    var allDegrees := p.coefficients.Keys + q.coefficients.Keys;
    var rest := allDegrees;
    while rest != {}
      invariant rest <= allDegrees && result.Valid()
      invariant forall d :: Coef(result.coefficients, d) ==
                            if d in allDegrees - rest then Coef(p.coefficients, d) - Coef(q.coefficients, d) else 0
      decreases rest
    {
      var degree :| degree in rest;
      var coeff1 := p.GetCoefficient(degree);
      var coeff2 := q.GetCoefficient(degree);
      result.SetCoefficient(degree, coeff1 - coeff2);
      rest := rest - {degree};
    }
    SameCoefficients(result.coefficients, Difference(p.coefficients, q.coefficients));
  }

  /** _parse_poly(s): a fresh polynomial to which every term read is added
      with set_coefficient(degree, existing + coefficient). */
  method ParsePoly(s: string) returns (poly: DynamicPolynomial)
    ensures fresh(poly) && poly.Valid()
    ensures poly.coefficients == Parsed(s)
  {
    poly := new DynamicPolynomial();
    var polyStr := RemoveAll(Strip(s), ' ');
    if polyStr == [] {
      return;
    }
    if !IsSign(polyStr[0]) {
      polyStr := "+" + polyStr;
    }
    var terms := ScanTerms(polyStr);
    assert terms == ReadTerms(s);
    for i := 0 to |terms|
      invariant poly.Valid()
      invariant Accumulate(poly.coefficients, terms[i..]) == Parsed(s)
    {
      var term := terms[i];
      var existing := poly.GetCoefficient(term.degree);
      assert terms[i..][1..] == terms[i + 1..];
      poly.SetCoefficient(term.degree, existing + term.coef);
    }
    assert terms[|terms|..] == [];
  }
}
