/** The term pattern shared by LinkedPolynomial.from_string
    (polinomio_flet/model/linked_polynomial.py) and the _parse_poly of the
    dictionary-backed calculator (flet_app/pol_model.py):

      [+-]\d*x\^\d+  |  [+-]\d*x  |  [+-]\d+

    read with re.findall, each match converted at once to a term: the sign,
    the digits in front of x (1 when there are none), and the exponent
    (after "x^", 1 for a bare x, 0 for a constant). Decimal points are not
    part of the modelled grammar. */
module TermScanner {
  import opened Wrappers
  import opened Text
  import opened PolyTerms
  import opened PolyText

  /** The length of the run of digits at the start of s. */
  function DigitRun(s: string): (n: nat)
    ensures n <= |s|
    ensures forall i :: 0 <= i < n ==> IsDigit(s[i])
    ensures n < |s| ==> !IsDigit(s[n])
  {
    if s != [] && IsDigit(s[0]) then 1 + DigitRun(s[1..]) else 0
  }

  /** The value v with the sign character sg applied. */
  function Signed(sg: char, v: nat): int
  {
    if sg == '-' then 0 - v else v
  }

  /** float() of the digits in front of x, 1.0 when there are none. */
  function XCoefficient(digits: string): nat
    requires AllDigits(digits)
  {
    if digits == [] then 1 else DigitsValue(digits)
  }

  /** A match of the term pattern: the term it is read as and its length. */
  datatype Match = Match(term: Term, length: nat)

  /** The match of the term pattern at the start of s, if any; the three
      alternatives are tried in order. */
  function MatchAt(s: string): (r: Option<Match>)
    ensures r.Some? ==> 2 <= r.value.length <= |s|
  {
    if s == [] || !IsSign(s[0]) then None else MatchSigned(s[0], s[1..])
  }

  /** The match after the sign sg: the digits, then an x (the first two
      alternatives) or, when there is no x, at least one digit (the third). */
  function MatchSigned(sg: char, t: string): (r: Option<Match>)
    ensures r.Some? ==> 2 <= r.value.length <= |t| + 1
  {
    var n := DigitRun(t);
    if n < |t| && t[n] == 'x' then Some(MatchX(sg, t[..n], t[n + 1..]))
    else if n > 0 then Some(Match(Term(Signed(sg, DigitsValue(t[..n])), 0), 1 + n))
    else None
  }

  /** The match once sg, the digits and the x are read: "^" and at least one
      digit give the exponent (the first alternative), otherwise the match
      ends at the x with exponent 1 (the second). */
  function MatchX(sg: char, digits: string, rest: string): (r: Match)
    requires AllDigits(digits)
    ensures 2 + |digits| <= r.length <= 2 + |digits| + |rest|
  {
    var m := if rest != [] && rest[0] == '^' then DigitRun(rest[1..]) else 0;
    if m > 0 then Match(Term(Signed(sg, XCoefficient(digits)), DigitsValue(rest[1..1 + m])), 3 + |digits| + m)
    else Match(Term(Signed(sg, XCoefficient(digits)), 1), 2 + |digits|)
  }

  /** re.findall with the term pattern, each match read as a term. Where no
      alternative matches, findall moves on by one character. */
  function ScanTerms(s: string): seq<Term>
    decreases |s|
  {
    if s == [] then []
    else match MatchAt(s)
      case Some(m) => [m.term] + ScanTerms(s[m.length..])
      case None => ScanTerms(s[1..])
  }

  // ---------------------------------------------------------------------
  // Reading printed terms back

  /** A run of digits ends where a sign or the end of the text comes. */
  lemma {:induction false} DigitRunOf(ds: string, rest: string)
    requires AllDigits(ds)
    requires rest == [] || !IsDigit(rest[0])
    ensures DigitRun(ds + rest) == |ds|
  {
    if ds != [] {
      assert (ds + rest)[1..] == ds[1..] + rest;
      DigitRunOf(ds[1..], rest);
    } else {
      assert ds + rest == rest;
    }
  }

  /** A signed constant followed by the next sign or the end is one match. */
  lemma ScanConstant(sg: char, ds: string, rest: string)
    requires IsSign(sg) && IsNumeral(ds)
    requires rest == [] || IsSign(rest[0])
    ensures ScanTerms([sg] + ds + rest) == [Term(Signed(sg, DigitsValue(ds)), 0)] + ScanTerms(rest)
  {
    var s := [sg] + ds + rest;
    assert s[1..] == ds + rest;
    DigitRunOf(ds, rest);
    assert s[1..1 + |ds|] == ds;
    assert s[1 + |ds|..] == rest;
    assert MatchAt(s) == Some(Match(Term(Signed(sg, DigitsValue(ds)), 0), 1 + |ds|));
  }

  /** A signed "cx" followed by the next sign or the end is one match. */
  lemma ScanLinear(sg: char, cs: string, rest: string)
    requires IsSign(sg) && AllDigits(cs)
    requires rest == [] || IsSign(rest[0])
    ensures ScanTerms([sg] + cs + ['x'] + rest) == [Term(Signed(sg, XCoefficient(cs)), 1)] + ScanTerms(rest)
  {
    var s := [sg] + cs + ['x'] + rest;
    assert s[1..] == cs + (['x'] + rest);
    DigitRunOf(cs, ['x'] + rest);
    assert s[1..1 + |cs|] == cs;
    var after := s[1 + |cs|..];
    assert after == ['x'] + rest;
    assert MatchAt(s) == Some(Match(Term(Signed(sg, XCoefficient(cs)), 1), 2 + |cs|));
    assert s[2 + |cs|..] == rest;
  }

  /** "^e" after the x, where e is the whole digit run that follows, is the
      exponent of a match of the first alternative. */
  lemma MatchPower(sg: char, cs: string, e: string, tail: string)
    requires AllDigits(cs) && IsNumeral(e)
    requires |e| <= |tail| && tail[..|e|] == e && DigitRun(tail) == |e|
    ensures MatchX(sg, cs, ['^'] + tail) == Match(Term(Signed(sg, XCoefficient(cs)), DigitsValue(e)), 3 + |cs| + |e|)
  {
    var r := ['^'] + tail;
    assert r[1..] == tail;
    assert r[1..1 + |e|] == e;
  }

  /** A signed "cx^e" followed by the next sign or the end is one match. */
  lemma ScanPower(sg: char, cs: string, e: string, rest: string)
    requires IsSign(sg) && AllDigits(cs) && IsNumeral(e)
    requires rest == [] || IsSign(rest[0])
    ensures ScanTerms([sg] + cs + ['x', '^'] + e + rest)
      == [Term(Signed(sg, XCoefficient(cs)), DigitsValue(e))] + ScanTerms(rest)
  {
    var r := ['^'] + (e + rest);
    var t := cs + (['x'] + r);
    var s := [sg] + cs + ['x', '^'] + e + rest;
    assert s == [sg] + t;
    assert s[1..] == t;
    DigitRunOf(cs, ['x'] + r);
    assert t[..|cs|] == cs && t[|cs|] == 'x' && t[|cs| + 1..] == r;
    DigitRunOf(e, rest);
    assert (e + rest)[..|e|] == e;
    MatchPower(sg, cs, e, e + rest);
    assert MatchSigned(sg, t) == Some(Match(Term(Signed(sg, XCoefficient(cs)), DigitsValue(e)), 3 + |cs| + |e|));
    assert s[3 + |cs| + |e|..] == rest;
  }

  /** A token as the calculators print it (sign, then the term body) is read
      back as the term itself. */
  lemma ScanToken(t: Term, rest: string)
    requires t.coef != 0
    requires rest == [] || IsSign(rest[0])
    ensures ScanTerms(Token(t) + rest) == [t] + ScanTerms(rest)
  {
    if t.degree == 0 {
      ScanConstantToken(t, rest);
    } else if t.degree == 1 {
      ScanLinearToken(t, rest);
    } else {
      ScanPowerToken(t, rest);
    }
  }

  /** The sign character of a printed term, and its coefficient read back. */
  lemma SignedCoefficient(t: Term)
    requires t.coef != 0
    ensures IsSign(Token(t)[0]) && Token(t) == [Token(t)[0]] + Body(t)
    ensures Signed(Token(t)[0], Abs(t.coef)) == t.coef
    ensures AllDigits(CoefString(t.coef, t.degree))
    ensures t.degree != 0 ==> XCoefficient(CoefString(t.coef, t.degree)) == Abs(t.coef)
    ensures IsNumeral(NatToString(Abs(t.coef))) && DigitsValue(NatToString(Abs(t.coef))) == Abs(t.coef)
  {
    NatToStringRoundTrip(Abs(t.coef));
  }

  lemma ScanConstantToken(t: Term, rest: string)
    requires t.coef != 0 && t.degree == 0
    requires rest == [] || IsSign(rest[0])
    ensures ScanTerms(Token(t) + rest) == [t] + ScanTerms(rest)
  {
    SignedCoefficient(t);
    var sg := Token(t)[0];
    var ds := NatToString(Abs(t.coef));
    assert Token(t) + rest == [sg] + ds + rest;
    ScanConstant(sg, ds, rest);
  }

  lemma ScanLinearToken(t: Term, rest: string)
    requires t.coef != 0 && t.degree == 1
    requires rest == [] || IsSign(rest[0])
    ensures ScanTerms(Token(t) + rest) == [t] + ScanTerms(rest)
  {
    SignedCoefficient(t);
    var sg := Token(t)[0];
    var cs := CoefString(t.coef, 1);
    assert Token(t) + rest == [sg] + cs + ['x'] + rest;
    ScanLinear(sg, cs, rest);
  }

  /** "x^" spelled as the characters the pattern reads one by one. */
  lemma PowerText(sg: char, cs: string, e: string, rest: string)
    ensures [sg] + (cs + "x^" + e) + rest == [sg] + cs + ['x', '^'] + e + rest
  {
    assert "x^" == ['x', '^'];
  }

  lemma ScanPowerToken(t: Term, rest: string)
    requires t.coef != 0 && t.degree >= 2
    requires rest == [] || IsSign(rest[0])
    ensures ScanTerms(Token(t) + rest) == [t] + ScanTerms(rest)
  {
    SignedCoefficient(t);
    NatToStringRoundTrip(t.degree);
    var sg := Token(t)[0];
    var cs := CoefString(t.coef, t.degree);
    var e := NatToString(t.degree);
    assert Body(t) == cs + "x^" + e;
    PowerText(sg, cs, e, rest);
    ScanPower(sg, cs, e, rest);
  }

  /** The joined tokens of a list without zero terms are read back as the
      list, term for term. */
  lemma {:induction false} ScanTokens(ts: seq<Term>)
    requires NoZero(ts)
    ensures ScanTerms(Concat(Tokens(ts))) == ts
  {
    if ts != [] {
      var rest := Concat(Tokens(ts[1..]));
      TokensJoined(ts);
      assert rest == [] || IsSign(rest[0]) by {
        if ts[1..] != [] {
          TokensJoined(ts[1..]);
        }
      }
      ScanToken(ts[0], rest);
      ScanTokens(ts[1..]);
    } else {
      assert Concat(Tokens(ts)) == [];
    }
  }
}
