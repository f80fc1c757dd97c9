/** The text form of the linked-list polynomial of the calculator: what
    Polynomial.__str__ prints ("3x^2 + 2x - 5") and how
    PolynomialModel._parse_poly reads a polynomial back (Proy_Poli/pol_model.py).

    The parser splits the text with the pattern `[+-][^+-]+` (FindTerms is
    that findall written as a scanner) and reads every match with float()
    and int(); a literal those reject makes the parse fail (None). */
module PolyText {
  import opened Wrappers
  import opened Text
  import opened PolyTerms

  // ---------------------------------------------------------------------
  // __str__

  function Abs(c: int): nat
  {
    if c < 0 then -c else c
  }

  /** The printed coefficient: left out when it is 1 on a power of x. */
  function CoefString(c: int, degree: nat): string
  {
    if Abs(c) == 1 && degree != 0 then "" else NatToString(Abs(c))
  }

  /** A term without its sign: "3x^2", "x", "5". */
  function Body(t: Term): string
  {
    if t.degree == 0 then CoefString(t.coef, 0)
    else if t.degree == 1 then CoefString(t.coef, 1) + "x"
    else CoefString(t.coef, t.degree) + "x^" + NatToString(t.degree)
  }

  /** The sign in front of a term: "-" or nothing on the first one printed,
      " + " or " - " on the others. */
  function SignString(c: int, first: bool): string
  {
    if first then (if c < 0 then "-" else "")
    else if c > 0 then " + " else " - "
  }

  /** The strings __str__ collects: terms with coefficient zero are skipped
      and do not use up the first position. */
  function Pieces(ts: seq<Term>, first: bool): seq<string>
  {
    if ts == [] then []
    else if ts[0].coef == 0 then Pieces(ts[1..], first)
    else [SignString(ts[0].coef, first) + Body(ts[0])] + Pieces(ts[1..], false)
  }

  /** __str__: "0" for the empty list, otherwise the pieces joined, with
      leading spaces and plus signs stripped. */
  function Format(ts: seq<Term>): string
  {
    if ts == [] then "0" else LStrip(Concat(Pieces(ts, true)), {' ', '+'})
  }

  // ---------------------------------------------------------------------
  // _parse_poly

  predicate IsSign(c: char)
  {
    c == '+' || c == '-'
  }

  /** The length of the longest prefix of s without a sign character. */
  function SignFreeRun(s: string): (n: nat)
    ensures n <= |s|
    ensures forall i :: 0 <= i < n ==> !IsSign(s[i])
    ensures n < |s| ==> IsSign(s[n])
  {
    if s == [] || IsSign(s[0]) then 0 else 1 + SignFreeRun(s[1..])
  }

  /** re.findall(r'([+-][^+-]+)', s): at each position either a sign
      followed by the longest run of non-sign characters (at least one) is
      taken, or the scan moves on by one character. */
  function FindTerms(s: string): (r: seq<string>)
    ensures forall i :: 0 <= i < |r| ==> |r[i]| >= 2 && IsSign(r[i][0])
    decreases |s|
  {
    if |s| < 2 then []
    else if IsSign(s[0]) && !IsSign(s[1]) then
      var n := 1 + SignFreeRun(s[1..]);
      [s[..n]] + FindTerms(s[n..])
    else FindTerms(s[1..])
  }

  /** float(s) on the literals modelled here: an optionally signed decimal
      numeral; anything else raises (None). */
  function ParseCoef(s: string): Option<int>
  {
    if IsSignedNumeral(s) then Some(SignedValue(s)) else None
  }

  /** int(s) on an unsigned decimal numeral; anything else raises (None). */
  function ParseDegree(s: string): Option<nat>
  {
    if IsNumeral(s) then Some(DigitsValue(s)) else None
  }

  /** The coefficient part of a match with an 'x' (the text before it): a
      bare sign means 1 or -1. */
  function XCoef(coeffPart: string): Option<int>
  {
    if coeffPart == "+" then Some(1)
    else if coeffPart == "-" then Some(-1)
    else if coeffPart != "" then ParseCoef(coeffPart)
    else Some(1)
  }

  /** The degree of a match with an 'x', from the text up to the next 'x':
      when it holds a '^', int() of everything after its first character;
      degree 1 otherwise. */
  function XDegree(part1: string): Option<nat>
  {
    if part1 != "" && '^' in part1 then ParseDegree(part1[1..]) else Some(1)
  }

  /** One match: split at 'x' into the coefficient part and the part after
      the first 'x'; a match without 'x' is a constant. */
  function ParseTerm(term: string): Option<Term>
  {
    var k := IndexOf(term, 'x');
    if k < |term| then
      var after := term[k + 1..];
      var coef := XCoef(term[..k]);
      var degree := XDegree(after[..IndexOf(after, 'x')]);
      if coef.None? || degree.None? then None else Some(Term(coef.value, degree.value))
    else if ParseCoef(term).Some? then Some(Term(ParseCoef(term).value, 0))
    else None
  }

  /** Every match read in turn; the first one that raises fails the parse. */
  function ParseTerms(terms: seq<string>): (r: Option<seq<Term>>)
    ensures r.Some? ==> |r.value| == |terms|
  {
    if terms == [] then Some([])
    else if ParseTerm(terms[0]).None? || ParseTerms(terms[1..]).None? then None
    else Some([ParseTerm(terms[0]).value] + ParseTerms(terms[1..]).value)
  }

  /** The text after strip() and removal of spaces, with a '+' put in front
      when it does not start with a sign. */
  function Normalize(s: string): string
  {
    var s1 := RemoveAll(Strip(s), ' ');
    if s1 == [] then [] else if IsSign(s1[0]) then s1 else "+" + s1
  }

  /** The terms _parse_poly reads from s, in the order it reads them. */
  function ReadTerms(s: string): Option<seq<Term>>
  {
    if Normalize(s) == [] then Some([]) else ParseTerms(FindTerms(Normalize(s)))
  }

  /** _parse_poly(s): the terms read, added one by one with add_term to an
      empty polynomial. */
  function ParsePoly(s: string): Option<seq<Term>>
  {
    match ReadTerms(s)
    case Some(ts) => Some(Rebuild(ts))
    case None => None
  }

  // ---------------------------------------------------------------------
  // What the parser promises

  /** A parse that succeeds gives a canonical polynomial whose coefficient
      at every degree is the sum of the coefficients read at that degree
      ("2x + 3x" is 5x). */
  lemma ParseSums(s: string)
    requires ParsePoly(s).Some?
    ensures Canonical(ParsePoly(s).value)
    ensures forall d :: CoefAt(ParsePoly(s).value, d) == CoefAt(ReadTerms(s).value, d)
  {
    RebuildIsCanonicalForm(ReadTerms(s).value);
  }

  /** An empty or blank string is the zero polynomial. */
  lemma ParseBlank(s: string)
    requires forall i :: 0 <= i < |s| ==> IsSpace(s[i])
    ensures ParsePoly(s) == Some([])
  {
    StripBlank(s);
  }

  /** A missing leading sign is read as '+'. */
  lemma ParseImplicitPlus(s: string)
    requires s != [] && !IsSign(s[0])
    requires forall i :: 0 <= i < |s| ==> !IsSpace(s[i])
    ensures ParsePoly(s) == ParsePoly("+" + s)
  {
    var p := "+" + s;
    StripUnchanged(s);
    StripUnchanged(p);
    RemoveAllAbsent(s, ' ');
    RemoveAllAbsent(p, ' ');
  }

  /** A bare sign before x is the coefficient 1 or -1, and x without '^'
      is degree 1. */
  lemma ParseUnitTerms()
    ensures ParseTerm("+x") == Some(Term(1, 1))
    ensures ParseTerm("-x") == Some(Term(-1, 1))
  {
    assert IndexOf("+x", 'x') == 1 && "+x"[..1] == "+" && "+x"[2..] == [];
    assert IndexOf("-x", 'x') == 1 && "-x"[..1] == "-" && "-x"[2..] == [];
  }

  function SignText(negative: bool): string
  {
    if negative then "-" else "+"
  }

  function Signed(negative: bool, k: nat): int
  {
    if negative then -(k as int) else k
  }

  /** A signed coefficient before 'x': a bare sign is 1 or -1, digits are
      their value with the sign. */
  lemma SignedXCoef(negative: bool, cs: string, m: nat)
    requires cs == "" || cs == NatToString(m)
    ensures 'x' !in SignText(negative) + cs
    ensures XCoef(SignText(negative) + cs) == Some(Signed(negative, if cs == "" then 1 else m))
  {
    var p := SignText(negative) + cs;
    if cs != "" {
      NatToStringRoundTrip(m);
      assert p[0] == (if negative then '-' else '+') && p[1..] == cs;
      assert |p| > 1 && !IsDigit(p[0]) && AllDigits(p[1..]);
      assert IsSignedNumeral(p) && !IsNumeral(p);
      assert p != "+" && p != "-" && p != "";
      assert forall i :: 0 <= i < |p| ==> p[i] != 'x' by {
        assert forall i :: 1 <= i < |p| ==> p[i] == cs[i - 1];
      }
    } else {
      assert p == SignText(negative);
    }
  }

  /** "cx^n" with either sign and a printed or missing coefficient c is the
      term of degree n with coefficient c (1 when missing), signed. */
  lemma ParsePowerTerm(negative: bool, cs: string, m: nat, n: nat)
    requires cs == "" || cs == NatToString(m)
    ensures ParseTerm(SignText(negative) + cs + ("x" + ("^" + NatToString(n)))) ==
      Some(Term(Signed(negative, if cs == "" then 1 else m), n))
  {
    PowerTail(n);
    SignedXCoef(negative, cs, m);
    ParseXTerm(SignText(negative) + cs, "^" + NatToString(n), Signed(negative, if cs == "" then 1 else m), n);
  }

  /** "^n" after the 'x' is degree n. */
  lemma PowerTail(n: nat)
    ensures var tail := "^" + NatToString(n); XDegree(tail[..IndexOf(tail, 'x')]) == Some(n)
  {
    var digits := NatToString(n);
    NatToStringRoundTrip(n);
    NumeralChars(n);
    var tail := "^" + digits;
    assert tail[0] == '^' && tail[1..] == digits;
    assert 'x' !in tail;
    assert tail[..IndexOf(tail, 'x')] == tail;
  }

  /** A match without 'x', either sign, is the constant term of that value. */
  lemma ParseConstant(negative: bool, m: nat)
    ensures ParseTerm(SignText(negative) + NatToString(m)) == Some(Term(Signed(negative, m), 0))
  {
    NatToStringRoundTrip(m);
    var t := SignText(negative) + NatToString(m);
    assert t[1..] == NatToString(m);
    assert 'x' !in t by {
      assert forall i :: 1 <= i < |t| ==> t[i] == NatToString(m)[i - 1];
    }
    assert IsSignedNumeral(t) && !IsNumeral(t);
  }

  // ---------------------------------------------------------------------
  // Reading back what __str__ prints

  /** The findall match that a printed term turns into once the spaces are
      gone and a '+' stands in front of the first term. */
  function Token(t: Term): string
  {
    (if t.coef < 0 then "-" else "+") + Body(t)
  }

  function Tokens(ts: seq<Term>): (r: seq<string>)
    ensures |r| == |ts|
  {
    seq(|ts|, i requires 0 <= i < |ts| => Token(ts[i]))
  }

  lemma TokensCons(ts: seq<Term>)
    requires ts != []
    ensures Tokens(ts) == [Token(ts[0])] + Tokens(ts[1..])
  {
  }

  /** The characters a printed term body is made of. */
  predicate BodyChar(c: char)
  {
    IsDigit(c) || c == 'x' || c == '^'
  }

  lemma NumeralChars(n: nat)
    ensures |NatToString(n)| > 0
    ensures forall i :: 0 <= i < |NatToString(n)| ==> IsDigit(NatToString(n)[i])
  {
    NatToStringRoundTrip(n);
  }

  lemma BodyShape(t: Term)
    ensures |Body(t)| > 0
    ensures forall i :: 0 <= i < |Body(t)| ==> BodyChar(Body(t)[i])
    ensures IsDigit(Body(t)[0]) || Body(t)[0] == 'x'
  {
    NumeralChars(Abs(t.coef));
    NumeralChars(t.degree);
  }

  lemma PiecesCons(ts: seq<Term>, first: bool)
    requires ts != [] && ts[0].coef != 0
    ensures Concat(Pieces(ts, first)) == (SignString(ts[0].coef, first) + Body(ts[0])) + Concat(Pieces(ts[1..], false))
  {
  }

  lemma ConcatCons(a: string, rest: seq<string>)
    ensures Concat([a] + rest) == a + Concat(rest)
  {
    assert ([a] + rest)[1..] == rest;
  }

  lemma TokensJoined(ts: seq<Term>)
    requires ts != []
    ensures Concat(Tokens(ts)) == Token(ts[0]) + Concat(Tokens(ts[1..]))
  {
    TokensCons(ts);
    ConcatCons(Token(ts[0]), Tokens(ts[1..]));
  }

  /** A printed term has no spaces once its sign is written without them. */
  lemma PieceWithoutSpaces(t: Term, first: bool)
    requires t.coef != 0
    ensures RemoveAll(SignString(t.coef, first) + Body(t), ' ')
      == (if first then (if t.coef < 0 then "-" else "") else (if t.coef < 0 then "-" else "+")) + Body(t)
  {
    BodyShape(t);
    assert ' ' !in Body(t);
    RemoveAllAppend(SignString(t.coef, first), Body(t), ' ');
    RemoveAllAbsent(Body(t), ' ');
    if first {
      if t.coef < 0 {
        assert RemoveAll("-", ' ') == "-";
      }
    } else {
      SignWithoutSpaces(t.coef);
    }
  }

  /** Without its spaces, the joined tail of the pieces is the joined tail
      of the tokens. */
  lemma {:induction false} PiecesTokens(ts: seq<Term>)
    requires NoZero(ts)
    ensures RemoveAll(Concat(Pieces(ts, false)), ' ') == Concat(Tokens(ts))
  {
    if ts != [] {
      var t := ts[0];
      var p := SignString(t.coef, false) + Body(t);
      PiecesCons(ts, false);
      RemoveAllAppend(p, Concat(Pieces(ts[1..], false)), ' ');
      PieceWithoutSpaces(t, false);
      PiecesTokens(ts[1..]);
      TokensJoined(ts);
    } else {
      assert Concat(Tokens(ts)) == [];
    }
  }

  lemma SignWithoutSpaces(c: int)
    requires c != 0
    ensures RemoveAll(SignString(c, false), ' ') == (if c < 0 then "-" else "+")
  {
    var sign := SignString(c, false);
    assert RemoveAll(sign[2..], ' ') == [];
    assert RemoveAll(sign[1..], ' ') == [sign[1]] by {
      assert sign[1..][1..] == sign[2..];
    }
  }

  /** The last character of the joined pieces ends a term body. */
  lemma {:induction false} PiecesEnd(ts: seq<Term>, first: bool)
    requires NoZero(ts) && ts != []
    ensures var s := Concat(Pieces(ts, first)); s != [] && BodyChar(s[|s| - 1])
  {
    var t := ts[0];
    BodyShape(t);
    var p := SignString(t.coef, first) + Body(t);
    PiecesCons(ts, first);
    if ts[1..] == [] {
      assert Concat(Pieces(ts, first)) == p + "";
    } else {
      PiecesEnd(ts[1..], false);
    }
  }

  /** The joined pieces start with '-' or with a term body. */
  lemma PiecesStart(ts: seq<Term>)
    requires NoZero(ts) && ts != []
    ensures var s := Concat(Pieces(ts, true)); s != [] && (s[0] == '-' || BodyChar(s[0]))
  {
    BodyShape(ts[0]);
    PiecesCons(ts, true);
  }

  /** __str__ of a non-empty list without zero terms is the joined pieces
      as they are: nothing is stripped from either end. */
  lemma FormatPieces(ts: seq<Term>)
    requires NoZero(ts) && ts != []
    ensures Format(ts) == Concat(Pieces(ts, true))
    ensures Strip(Format(ts)) == Format(ts)
  {
    var s := Concat(Pieces(ts, true));
    PiecesStart(ts);
    PiecesEnd(ts, true);
    LStripUnchanged(s, {' ', '+'});
    StripUnchanged(s);
  }

  /** Normalizing a string that is already stripped and whose first term
      carries no sign, or a minus sign, puts the sign in front. */
  lemma NormalizeOf(f: string, negative: bool, body: string, rest: string)
    requires Strip(f) == f
    requires RemoveAll(f, ' ') == ((if negative then "-" else "") + body) + rest
    requires body != [] && !IsSign(body[0])
    ensures Normalize(f) == ((if negative then "-" else "+") + body) + rest
  {
  }

  /** Without its spaces, the printed form is the first term with only its
      minus sign, then the other tokens. */
  lemma FormatWithoutSpaces(ts: seq<Term>)
    requires NoZero(ts) && ts != []
    ensures RemoveAll(Format(ts), ' ')
      == ((if ts[0].coef < 0 then "-" else "") + Body(ts[0])) + Concat(Tokens(ts[1..]))
  {
    var t := ts[0];
    var first := SignString(t.coef, true) + Body(t);
    var rest := Concat(Pieces(ts[1..], false));
    FormatPieces(ts);
    PiecesCons(ts, true);
    RemoveAllAppend(first, rest, ' ');
    PieceWithoutSpaces(t, true);
    PiecesTokens(ts[1..]);
  }

  /** For a non-empty list without zero terms, the normalized printed form is
      the tokens joined. */
  lemma NormalizeFormat(ts: seq<Term>)
    requires NoZero(ts) && ts != []
    ensures Normalize(Format(ts)) == Concat(Tokens(ts))
  {
    var t := ts[0];
    FormatPieces(ts);
    FormatWithoutSpaces(ts);
    BodyShape(t);
    NormalizeOf(Format(ts), t.coef < 0, Body(t), Concat(Tokens(ts[1..])));
    TokensJoined(ts);
  }

  /** The scanner returns the tokens of a joined token list one by one. */
  lemma {:induction false} FindTokens(ts: seq<Term>)
    ensures FindTerms(Concat(Tokens(ts))) == Tokens(ts)
  {
    if ts != [] {
      var tok := Token(ts[0]);
      var rest := Concat(Tokens(ts[1..]));
      BodyShape(ts[0]);
      assert tok[1..] == Body(ts[0]);
      TokensJoined(ts);
      assert rest == [] || IsSign(rest[0]) by {
        if ts[1..] != [] {
          TokensJoined(ts[1..]);
        }
      }
      FindTermsStep(tok, rest);
      FindTokens(ts[1..]);
      TokensCons(ts);
    } else {
      assert Concat(Tokens(ts)) == [];
    }
  }

  /** One step of the scanner: a sign followed by a term body, then a sign
      or the end, is one match. */
  lemma FindTermsStep(tok: string, rest: string)
    requires |tok| >= 2 && IsSign(tok[0])
    requires forall i :: 0 <= i < |tok[1..]| ==> BodyChar(tok[1..][i])
    requires rest == [] || IsSign(rest[0])
    ensures FindTerms(tok + rest) == [tok] + FindTerms(rest)
  {
    var s := tok + rest;
    assert s[1..] == tok[1..] + rest;
    SignFreeRunOf(tok[1..], rest);
    assert s[..|tok|] == tok;
    assert s[|tok|..] == rest;
  }

  lemma {:induction false} SignFreeRunOf(body: string, rest: string)
    requires forall i :: 0 <= i < |body| ==> BodyChar(body[i])
    requires rest == [] || IsSign(rest[0])
    ensures SignFreeRun(body + rest) == |body|
  {
    if body != [] {
      assert (body + rest)[1..] == body[1..] + rest;
      SignFreeRunOf(body[1..], rest);
    } else {
      assert body + rest == rest;
    }
  }

  /** Each token reads back as the term it was printed from. */
  lemma ParseToken(t: Term)
    requires t.coef != 0
    ensures ParseTerm(Token(t)) == Some(t)
  {
    if t.degree == 0 {
      ParseConstantToken(t);
    } else {
      ParseXToken(t);
    }
  }

  lemma ParseXToken(t: Term)
    requires t.coef != 0 && t.degree >= 1
    ensures ParseTerm(Token(t)) == Some(t)
  {
    var sign := if t.coef < 0 then "-" else "+";
    var cs := CoefString(t.coef, t.degree);
    var tail := if t.degree == 1 then "" else "^" + NatToString(t.degree);
    TokenSplit(t, sign, cs, tail);
    NoXInCoef(sign, t.coef, t.degree);
    XCoefOf(t.coef, cs);
    XDegreeOf(t.degree, tail);
    ParseXTerm(sign + cs, tail, t.coef, t.degree);
  }

  lemma TokenSplit(t: Term, sign: string, cs: string, tail: string)
    requires t.degree >= 1
    requires sign == if t.coef < 0 then "-" else "+"
    requires cs == CoefString(t.coef, t.degree)
    requires tail == if t.degree == 1 then "" else "^" + NatToString(t.degree)
    ensures Token(t) == (sign + cs) + ("x" + tail)
  {
  }

  lemma NoXInCoef(sign: string, c: int, d: nat)
    requires sign == "-" || sign == "+"
    ensures 'x' !in sign + CoefString(c, d)
  {
    NumeralChars(Abs(c));
  }

  /** A match with an 'x' is read from the text before and after it. */
  lemma ParseXTerm(a: string, tail: string, c: int, d: nat)
    requires 'x' !in a
    requires XCoef(a) == Some(c) && XDegree(tail[..IndexOf(tail, 'x')]) == Some(d)
    ensures ParseTerm(a + ("x" + tail)) == Some(Term(c, d))
  {
    var term := a + ("x" + tail);
    IndexOfAppend(a, "x" + tail, 'x');
    assert term[..|a|] == a;
    assert term[|a| + 1..] == tail;
  }

  lemma ParseConstantToken(t: Term)
    requires t.coef != 0 && t.degree == 0
    ensures ParseTerm(Token(t)) == Some(t)
  {
    var digits := NatToString(Abs(t.coef));
    NatToStringRoundTrip(Abs(t.coef));
    assert Token(t) == (if t.coef < 0 then "-" else "+") + digits;
    assert 'x' !in Token(t);
    assert IndexOf(Token(t), 'x') == |Token(t)|;
    assert Token(t)[1..] == digits;
  }

  lemma XCoefOf(c: int, cs: string)
    requires c != 0
    requires cs == "" ==> Abs(c) == 1
    requires cs != "" ==> cs == NatToString(Abs(c))
    ensures XCoef((if c < 0 then "-" else "+") + cs) == Some(c)
  {
    if cs != "" {
      NatToStringRoundTrip(Abs(c));
      var p := (if c < 0 then "-" else "+") + cs;
      assert p[1..] == cs;
      assert |p| > 1 && !IsDigit(p[0]) && AllDigits(p[1..]);
      assert IsSignedNumeral(p) && !IsNumeral(p);
      assert p != "+" && p != "-";
      assert SignedValue(p) == c;
    }
  }

  lemma XDegreeOf(d: nat, tail: string)
    requires d >= 1
    requires tail == (if d == 1 then "" else "^" + NatToString(d))
    ensures XDegree(tail[..IndexOf(tail, 'x')]) == Some(d)
  {
    if d > 1 {
      NumeralChars(d);
      NatToStringRoundTrip(d);
      assert 'x' !in tail;
      assert IndexOf(tail, 'x') == |tail|;
      assert tail[..|tail|] == tail;
      assert tail[1..] == NatToString(d);
    }
  }

  /** Matches that each read as a term read together as the list of them. */
  lemma {:induction false} ParseAll(terms: seq<string>, ts: seq<Term>)
    requires |terms| == |ts|
    requires forall i :: 0 <= i < |terms| ==> ParseTerm(terms[i]) == Some(ts[i])
    ensures ParseTerms(terms) == Some(ts)
  {
    if terms != [] {
      assert ParseTerm(terms[0]) == Some(ts[0]);
      ParseAll(terms[1..], ts[1..]);
      assert [ts[0]] + ts[1..] == ts;
    }
  }

  /** One match that raises makes the whole parse fail. */
  lemma {:induction false} ParseFails(terms: seq<string>, j: nat)
    requires j < |terms| && ParseTerm(terms[j]).None?
    ensures ParseTerms(terms) == None
  {
    if j > 0 {
      ParseFails(terms[1..], j - 1);
    }
  }

  lemma ParseTokens(ts: seq<Term>)
    requires NoZero(ts)
    ensures ParseTerms(Tokens(ts)) == Some(ts)
  {
    forall i | 0 <= i < |ts| ensures ParseTerm(Tokens(ts)[i]) == Some(ts[i]) {
      ParseToken(ts[i]);
    }
    ParseAll(Tokens(ts), ts);
  }

  /** A single digit reads back as that constant; "0" is the zero
      polynomial. */
  lemma ParseDigit(d: char)
    requires IsDigit(d)
    ensures ParsePoly([d]) == Some(if d == '0' then [] else [Term(DigitValue(d), 0)])
  {
    var s: string := [d];
    var signed: string := ['+', d];
    NormalizeDigit(d);
    FindDigit(d);
    assert ParseTerm(signed) == Some(Term(DigitValue(d), 0)) by {
      assert IndexOf(signed, 'x') == 2 by {
        assert IndexOf(signed[1..], 'x') == 1;
      }
      assert signed[1..] == [d];
      assert IsSignedNumeral(signed);
      assert DigitsValue([d]) == DigitValue(d) by {
        assert [d][..0] == [];
      }
    }
    ParseAll([signed], [Term(DigitValue(d), 0)]);
    assert ReadTerms(s) == Some([Term(DigitValue(d), 0)]);
    var t := [Term(DigitValue(d), 0)];
    assert t[..0] == [];
    assert Rebuild(t) == Insert([], DigitValue(d), 0);
    assert DigitValue(d) == 0 <==> d == '0';
  }

  lemma NormalizeDigit(d: char)
    requires IsDigit(d)
    ensures Normalize([d]) == ['+', d]
  {
    var s: string := [d];
    StripUnchanged(s);
    RemoveAllAbsent(s, ' ');
    assert "+" + s == ['+', d];
  }

  lemma FindDigit(d: char)
    requires IsDigit(d)
    ensures FindTerms(['+', d]) == [['+', d]]
  {
    var signed: string := ['+', d];
    assert signed[1..] == [d] && [d][1..] == [];
    assert SignFreeRun([d]) == 1;
    assert signed[..2] == signed && signed[2..] == [];
  }

  /** Round trip: reading back what __str__ prints gives the polynomial
      again, for every canonical term list (the empty one prints as "0",
      which reads back as the zero polynomial). */
  lemma FormatParseRoundTrip(ts: seq<Term>)
    requires Canonical(ts)
    ensures ParsePoly(Format(ts)) == Some(ts)
  {
    if ts == [] {
      ParseDigit('0');
      assert Format(ts) == ['0'];
    } else {
      var n := Normalize(Format(ts));
      NormalizeFormat(ts);
      FindTokens(ts);
      ParseTokens(ts);
      assert n != [];
      assert ReadTerms(Format(ts)) == Some(ts);
      RebuildIsCanonicalForm(ts);
    }
  }
}
