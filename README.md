# Polynomial, expression and figure models of the Estructura-de-Datos-I Flet apps

This project is a Dafny model of the model layer of several small classroom
applications. Each one is a Flet desktop app written in Python, with a
model, a view and a controller. Only the models are modelled here:

- **Linked-list polynomial calculator** (`Proy_Poli`). A `Polynomial` keeps
  its terms in a singly linked list of `PolyNode`s, with degrees strictly
  descending. It offers `add_term`, `+`, `-`, `str`, `delete_term`,
  `search_term`, `sort_terms` and `clone`. A `PolynomialModel` holds two
  operands and a result. It also keeps an undo history on a linked
  `Stack` and a queue of pending operations on a linked `Queue`, and it
  parses polynomials from text.
- **Linked polynomial with insertion by scan** (`polinomio_flet`). A
  `LinkedPolynomial` of `TermNode`s with `insert_term`, `from_string`,
  `evaluate`, `add` and `to_string`.
- **Dictionary polynomial** (`flet_app/pol_model.py`). A `DynamicPolynomial`
  maps each degree to a non-zero coefficient. The calculator's
  `_parse_poly` reads one from text.
- **Infix to prefix and postfix converter** (`Exa2`). A tokenizer, two
  shunting-yard passes over linked stacks, and a stack evaluator for each
  notation.
- **Cycling figures** (`Flet_Figuras`). A circular doubly linked list of
  figures, a colour palette indexed modulo its size, and a cursor. The
  cursor moves forward and back and counts laps; the figures are
  repainted on every lap.
- **Counter** (`flet_app/model_flet.py`). A count that only goes up by one.

Objects the source updates in place are Dafny classes with `modifies`
clauses. Examples are the linked lists, stacks, queues, the ring of
figures and the application models. Each one carries a ghost "spine" (the
sequence of its nodes), a ghost abstract value (the sequence of its terms
or values) and a ghost footprint `Repr`. Every method states its new
abstract value as a function of the old one.

The meaning of those functions is proved separately, as lemmas about pure
functions on term sequences (`PolyTerms`, `PolyText`, `TermScanner`,
`InfixConvert`, `InfixEval`, the cursor and palette in `Figures`):

- coefficients add up;
- canonical form (strictly descending degrees, no zero) is kept;
- sorting is a permutation;
- text round trips: parse after print gives the polynomial back;
- postfix and prefix evaluation computes the value of the expression tree;
- both conversions keep every non-parenthesis token exactly once.

Coefficients and operands are exact numbers. Coefficients are `int`;
evaluator values are `real`, so `/` is exact division.

Modules:

| file | module | models |
|---|---|---|
| wrappers.dfy | Wrappers | `Option`, `Result` |
| text.dfy | Text | the Python string functions used: `strip`, `lstrip`, `replace`, `split`, `join`, `str(n)`, `int(s)` |
| poly_terms.dfy | PolyTerms | terms, canonical form, `add_term`/`+`/`-`/`delete_term`/`search_term`/`sort_terms` on term sequences |
| poly_text.dfy | PolyText | `Polynomial.__str__` and `PolynomialModel._parse_poly` of `Proy_Poli` |
| term_scanner.dfy | TermScanner | the term pattern of `from_string` and of the dictionary calculator's `_parse_poly` |
| data_structures.dfy | DataStructures | `PolyNode`, `LinkedList`, `Node`, `Stack`, `Queue` |
| polynomial.dfy | Polynomials | class `Polynomial` of `Proy_Poli` |
| calculator.dfy | Calculator | class `PolynomialModel` of `Proy_Poli` |
| linked_polynomial.dfy | LinkedPoly | `TermNode`, `LinkedPolynomial` |
| dynamic_polynomial.dfy | DynamicPoly | `DynamicPolynomial` and its `_parse_poly` |
| infix_tokens.dfy | InfixTokens | `_tokenize` |
| infix_convert.dfy | InfixConvert | `_precedence`, the two shunting passes as functions |
| infix_eval.dfy | InfixEval | `evaluate_postfix`, `evaluate_prefix` |
| infix_model.dfy | InfixModel | class `InfixToPrefixModel` |
| figures.dfy | Figures | `Figure`, the ring, `ColorManager`, `PoModel` |
| counter.dfy | Counter | `CounterModel` |

## Model

| member | source | states |
|---|---|---|
| Text.NatToStringRoundTrip | GitHub/Proyectos/Proy_Poli/pol_model.py:158-165 | `str(n)` of a natural number is a numeral that `int()` reads back as `n` |
| Text.RemoveAll | GitHub/Proyectos/Proy_Poli/pol_model.py:280 | `s.replace(c, "")` leaves no `c` and never lengthens the text |
| Text.RemoveAllAppend | GitHub/Proyectos/Proy_Poli/pol_model.py:280 | removing a character distributes over concatenation |
| Text.RemoveAllAbsent | GitHub/Proyectos/Proy_Poli/pol_model.py:280 | removing a character that does not occur changes nothing |
| Text.IndexOf | GitHub/Proyectos/Proy_Poli/pol_model.py:301-302 | the index of the first occurrence of `c` (what `split('x')[0]` stops at), or the length when there is none |
| Text.LStrip | GitHub/Proyectos/polinomio_flet/model/linked_polynomial.py:107 | `lstrip(chars)` returns a suffix that does not start with one of the characters |
| Text.LStripUnchanged | GitHub/Proyectos/polinomio_flet/model/linked_polynomial.py:107 | a text that does not start with a stripped character is unchanged |
| Text.StripLeft | GitHub/Proyectos/Proy_Poli/pol_model.py:280 | leading whitespace removed: a suffix not starting with a space |
| Text.StripRight | GitHub/Proyectos/Proy_Poli/pol_model.py:280 | trailing whitespace removed: a prefix not ending with a space |
| Text.StripUnchanged | GitHub/Proyectos/Proy_Poli/pol_model.py:280 | `strip()` keeps a text without outer whitespace as it is |
| Text.StripBlank | GitHub/Proyectos/Proy_Poli/pol_model.py:280-282 | `strip()` of an all-whitespace text is empty |
| Text.ConcatSnoc | GitHub/Proyectos/Proy_Poli/pol_model.py:168 | `"".join` of a list with one more part is the old join plus that part |
| Text.WordLength | GitHub/Proyectos/Exa2/pol_model.py:151 | the first run of non-space characters ends at a space or at the end |
| Text.SplitWords | GitHub/Proyectos/Exa2/pol_model.py:151 | `split()` yields non-empty words without whitespace |
| Text.SplitJoinRoundTrip | GitHub/Proyectos/Exa2/pol_model.py:106 | `" ".join(words).split()` gives the words back, for words without spaces (also lines 144, 151) |
| Text.WordLengthOfWord | GitHub/Proyectos/Exa2/pol_model.py:151 | a word followed by a space or by nothing is read whole |
| PolyTerms.Insert | GitHub/Proyectos/Proy_Poli/pol_model.py:20-63 | reference definition of `add_term(c, d)`: nothing for a zero coefficient; otherwise `c` is placed at degree `d` in the descending list, merged into an equal degree and unlinked when the sum is zero |
| PolyTerms.Merge | GitHub/Proyectos/Proy_Poli/pol_model.py:65-113 | reference definition of `__add__`: both lists walked from the head, the higher degree emitted, equal degrees summed, zero sums dropped |
| PolyTerms.Negate | GitHub/Proyectos/Proy_Poli/pol_model.py:126-130 | reference definition of the negated operand of `__sub__`: every coefficient negated, degrees and order kept |
| PolyTerms.Sub | GitHub/Proyectos/Proy_Poli/pol_model.py:115-131 | reference definition of `__sub__`: the negated operand rebuilt through `add_term`, then added |
| PolyTerms.Delete | GitHub/Proyectos/Proy_Poli/pol_model.py:170-195 | reference definition of `delete_term(d)`: the first term of degree `d` unlinked, the list unchanged when there is none |
| PolyTerms.Search | GitHub/Proyectos/Proy_Poli/pol_model.py:197-213 | reference definition of `search_term(d)`: the coefficient of the first term of degree `d`, or `None` |
| PolyTerms.InsertOrdered | GitHub/Proyectos/Proy_Poli/pol_model.py:230 | reference definition of one step of the stable sort: a term goes after every term that does not come strictly after it |
| PolyTerms.SortByDegree | GitHub/Proyectos/Proy_Poli/pol_model.py:215-237 | reference definition of `sort_terms`: the stable sort by degree, ascending or descending |
| PolyTerms.Rebuild | GitHub/Proyectos/Proy_Poli/pol_model.py:239-246 | reference definition of `clone` (and of building a polynomial term by term): `add_term` applied to each term in turn, starting from the empty polynomial |
| PolyTerms.CoefAppend | GitHub/Proyectos/Proy_Poli/pol_model.py:65-113 | the coefficient of a degree in `a + b` is the sum of those in `a` and `b` |
| PolyTerms.CoefAbsent | GitHub/Proyectos/Proy_Poli/pol_model.py:197-213 | a degree that no term has has coefficient 0 |
| PolyTerms.CoefHead | GitHub/Proyectos/Proy_Poli/pol_model.py:37-63 | in a descending list the head's degree carries exactly the head's coefficient |
| PolyTerms.EvalAppend | GitHub/Proyectos/polinomio_flet/model/linked_polynomial.py:57-63 | the value of `a + b` at `x` is the sum of their values |
| PolyTerms.CanonicalUnique | GitHub/Proyectos/Proy_Poli/pol_model.py:20-63 | two canonical term lists with the same coefficient at every degree are equal |
| PolyTerms.PlaceCoef | GitHub/Proyectos/Proy_Poli/pol_model.py:37-63 | the add_term walk adds `c` at degree `d` and changes no other coefficient |
| PolyTerms.InsertCoef | GitHub/Proyectos/Proy_Poli/pol_model.py:20-63 | `add_term(c, d)` adds `c` to the coefficient of `d` and nothing else, including `c == 0` |
| PolyTerms.PlaceBelow | GitHub/Proyectos/Proy_Poli/pol_model.py:37-63 | inserting below a bound keeps every degree below it |
| PolyTerms.PlaceCanonical | GitHub/Proyectos/Proy_Poli/pol_model.py:37-63 | the walk keeps degrees strictly descending and drops a node whose sum is 0 |
| PolyTerms.InsertCanonical | GitHub/Proyectos/Proy_Poli/pol_model.py:20-63 | `add_term` keeps a canonical polynomial canonical |
| PolyTerms.InsertCancel | GitHub/Proyectos/Proy_Poli/pol_model.py:49-56 | `add_term(c, d)` then `add_term(-c, d)` gives back the original polynomial |
| PolyTerms.MergeCoef | GitHub/Proyectos/Proy_Poli/pol_model.py:75-113 | the coefficient of `__add__` at every degree is the sum of the operands' coefficients |
| PolyTerms.MergeNoZero | GitHub/Proyectos/Proy_Poli/pol_model.py:91-96 | zero sums are omitted from `__add__` |
| PolyTerms.MergeBelow | GitHub/Proyectos/Proy_Poli/pol_model.py:75-113 | the sum of lists below a bound stays below it |
| PolyTerms.MergeDescending | GitHub/Proyectos/Proy_Poli/pol_model.py:75-113 | the sum of descending lists is strictly descending |
| PolyTerms.KeepDescending | GitHub/Proyectos/Proy_Poli/pol_model.py:91-96 | emitting a kept term above the rest keeps the list descending |
| PolyTerms.MergeCanonical | GitHub/Proyectos/Proy_Poli/pol_model.py:65-113 | the sum of canonical polynomials is canonical |
| PolyTerms.MergeCommutes | GitHub/Proyectos/Proy_Poli/pol_model.py:65-113 | `p + q == q + p` on canonical operands |
| PolyTerms.MergeZero | GitHub/Proyectos/Proy_Poli/pol_model.py:65-113 | adding the zero polynomial on either side changes nothing |
| PolyTerms.RebuildCanonical | GitHub/Proyectos/Proy_Poli/pol_model.py:239-246 | a polynomial rebuilt term by term through `add_term` is canonical |
| PolyTerms.RebuildCoef | GitHub/Proyectos/Proy_Poli/pol_model.py:239-246 | the rebuilt polynomial has the same coefficient at every degree |
| PolyTerms.RebuildIsCanonicalForm | GitHub/Proyectos/Proy_Poli/pol_model.py:239-246 | `clone` of a canonical polynomial equals it |
| PolyTerms.NegateCoef | GitHub/Proyectos/Proy_Poli/pol_model.py:122-125 | negating every term negates every coefficient |
| PolyTerms.NegateCanonical | GitHub/Proyectos/Proy_Poli/pol_model.py:122-125 | negation keeps canonical form |
| PolyTerms.SubCoef | GitHub/Proyectos/Proy_Poli/pol_model.py:115-131 | the coefficient of `p - q` is the difference at every degree |
| PolyTerms.SubIsAddNegation | GitHub/Proyectos/Proy_Poli/pol_model.py:126-131 | on a canonical subtrahend `p - q == p + negate(q)` |
| PolyTerms.SubCanonical | GitHub/Proyectos/Proy_Poli/pol_model.py:115-131 | `p - q` is canonical and `p - p` is the zero polynomial |
| PolyTerms.FirstIndex | GitHub/Proyectos/Proy_Poli/pol_model.py:180-190 | the index of the first term of the degree, with no earlier term of that degree |
| PolyTerms.SearchCanonical | GitHub/Proyectos/Proy_Poli/pol_model.py:197-213 | on a canonical list `search_term(d)` is `None` exactly when the coefficient of `d` is 0, else that coefficient |
| PolyTerms.DeleteCanonical | GitHub/Proyectos/Proy_Poli/pol_model.py:170-195 | `delete_term(d)` zeroes degree `d` only, keeps canonical form, and leaves the list unchanged exactly when `d` is absent |
| PolyTerms.InsertOrderedSpec | GitHub/Proyectos/Proy_Poli/pol_model.py:222-237 | one insertion step keeps the list ordered and adds exactly that term |
| PolyTerms.InsertOrderedPerm | GitHub/Proyectos/Proy_Poli/pol_model.py:222-237 | an insertion step adds exactly one term to the multiset |
| PolyTerms.InsertOrderedSorted | GitHub/Proyectos/Proy_Poli/pol_model.py:222-237 | an insertion step keeps the requested order |
| PolyTerms.SortByDegreeSpec | GitHub/Proyectos/Proy_Poli/pol_model.py:215-237 | `sort_terms(asc)` orders by degree in the requested direction and is a permutation of the terms |
| PolyTerms.SortDescendingIdentity | GitHub/Proyectos/Proy_Poli/pol_model.py:215-237 | a stable descending sort of a non-increasing list changes nothing |
| PolyTerms.AppendLast | GitHub/Proyectos/Proy_Poli/pol_model.py:215-237 | a term not above any other goes to the end of a descending sort |
| PolyTerms.SortAscendingReverses | GitHub/Proyectos/Proy_Poli/pol_model.py:215-237 | an ascending sort of a strictly descending list reverses it |
| PolyText.Format | GitHub/Proyectos/Proy_Poli/pol_model.py:133-168 | reference definition of `__str__`: `"0"` for no terms, otherwise the pieces joined with leading spaces and `+` stripped |
| PolyText.Normalize | GitHub/Proyectos/Proy_Poli/pol_model.py:280-286 | reference definition of the text `_parse_poly` scans: stripped, spaces removed, a `+` put in front unless it starts with a sign |
| PolyText.XCoef | GitHub/Proyectos/Proy_Poli/pol_model.py:305-310 | reference definition of the coefficient before `x`: a bare `+` or `-` is `1` or `-1`, otherwise the number the text spells |
| PolyText.XDegree | GitHub/Proyectos/Proy_Poli/pol_model.py:313-319 | reference definition of the degree after `x`: `int()` of what follows `^`, 1 when there is no `^` |
| PolyText.ParseTerm | GitHub/Proyectos/Proy_Poli/pol_model.py:300-322 | reference definition of reading one match: split at `x` into coefficient and degree, a match without `x` a constant; `None` where `float()` or `int()` would raise |
| PolyText.ParsePoly | GitHub/Proyectos/Proy_Poli/pol_model.py:268-326 | reference definition of `_parse_poly`: the terms read in order and added with `add_term` to an empty polynomial; `None` where Python raises |
| PolyText.SignFreeRun | GitHub/Proyectos/Proy_Poli/pol_model.py:289 | the run matched by `[^+-]+` ends at a sign or at the end |
| PolyText.FindTerms | GitHub/Proyectos/Proy_Poli/pol_model.py:289-290 | every `findall` match of `[+-][^+-]+` is a sign followed by at least one character |
| PolyText.ParseTerms | GitHub/Proyectos/Proy_Poli/pol_model.py:292-326 | a successful read gives one term per match |
| PolyText.ParseSums | GitHub/Proyectos/Proy_Poli/pol_model.py:292-326 | a parsed polynomial is canonical and repeated degrees are summed |
| PolyText.ParseBlank | GitHub/Proyectos/Proy_Poli/pol_model.py:279-282 | an empty or blank text is the zero polynomial |
| PolyText.ParseImplicitPlus | GitHub/Proyectos/Proy_Poli/pol_model.py:285-286 | a missing leading sign reads as `+` |
| PolyText.ParseUnitTerms | GitHub/Proyectos/Proy_Poli/pol_model.py:305-308 | `+x` and `-x` have coefficient 1 and -1, degree 1 |
| PolyText.ParsePowerTerm | GitHub/Proyectos/Proy_Poli/pol_model.py:300-319 | a term `±cx^n`, with either sign and either no coefficient (read as 1) or any printed natural coefficient `c`, reads as coefficient `±c` (or `±1`) and degree `n` (also lines 313-315) |
| PolyText.SignedXCoef | GitHub/Proyectos/Proy_Poli/pol_model.py:305-310 | the text before `x` is a bare sign (coefficient `±1`) or a sign and printed digits (coefficient `±c`) |
| PolyText.PowerTail | GitHub/Proyectos/Proy_Poli/pol_model.py:313-315 | the text `^n` after `x` reads as degree `n` |
| PolyText.ParseConstant | GitHub/Proyectos/Proy_Poli/pol_model.py:320-322 | a match without `x`, with either sign and any printed natural `m`, is the constant `±m` (degree 0) |
| PolyText.Tokens | GitHub/Proyectos/Proy_Poli/pol_model.py:133-168 | one signed token per printed term |
| PolyText.TokensCons | GitHub/Proyectos/Proy_Poli/pol_model.py:133-168 | the tokens of a list are its head's token, then the rest |
| PolyText.NumeralChars | GitHub/Proyectos/Proy_Poli/pol_model.py:158-165 | a printed coefficient or exponent is a non-empty run of digits |
| PolyText.BodyShape | GitHub/Proyectos/Proy_Poli/pol_model.py:155-165 | a printed term body is non-empty and starts with a digit or `x` |
| PolyText.PiecesCons | GitHub/Proyectos/Proy_Poli/pol_model.py:140-168 | the joined parts are the first part followed by the rest |
| PolyText.TokensJoined | GitHub/Proyectos/Proy_Poli/pol_model.py:133-168 | joined tokens are the first token followed by the rest |
| PolyText.PieceWithoutSpaces | GitHub/Proyectos/Proy_Poli/pol_model.py:143-165 | a printed term without its spaces is its signed token |
| PolyText.PiecesTokens | GitHub/Proyectos/Proy_Poli/pol_model.py:140-168 | the printed text without spaces is the concatenated tokens |
| PolyText.SignWithoutSpaces | GitHub/Proyectos/Proy_Poli/pol_model.py:143-152 | `" + "` and `" - "` lose their spaces |
| PolyText.PiecesEnd | GitHub/Proyectos/Proy_Poli/pol_model.py:140-168 | the printed text ends with a term character, not a space |
| PolyText.PiecesStart | GitHub/Proyectos/Proy_Poli/pol_model.py:140-168 | the printed text starts with `-` or a term character |
| PolyText.FormatPieces | GitHub/Proyectos/Proy_Poli/pol_model.py:133-168 | the text of a non-zero polynomial is the joined parts, with no outer whitespace |
| PolyText.NormalizeOf | GitHub/Proyectos/Proy_Poli/pol_model.py:280-286 | the parser's normalisation puts `+` in front of an unsigned first term |
| PolyText.FormatWithoutSpaces | GitHub/Proyectos/Proy_Poli/pol_model.py:133-168 | the printed text without spaces is the first token with an optional `-`, then the other tokens |
| PolyText.NormalizeFormat | GitHub/Proyectos/Proy_Poli/pol_model.py:280-286 | normalising a printed polynomial gives its concatenated tokens |
| PolyText.FindTokens | GitHub/Proyectos/Proy_Poli/pol_model.py:289-290 | `findall` splits concatenated tokens back into those tokens |
| PolyText.FindTermsStep | GitHub/Proyectos/Proy_Poli/pol_model.py:289-290 | a token before a sign or the end is one match |
| PolyText.SignFreeRunOf | GitHub/Proyectos/Proy_Poli/pol_model.py:289 | a body followed by a sign or the end is matched whole |
| PolyText.ParseToken | GitHub/Proyectos/Proy_Poli/pol_model.py:292-323 | each printed token reads back as the term it was printed from |
| PolyText.ParseXToken | GitHub/Proyectos/Proy_Poli/pol_model.py:300-319 | a token with `x` reads back as its term |
| PolyText.TokenSplit | GitHub/Proyectos/Proy_Poli/pol_model.py:301-302 | a token with `x` is sign, coefficient, `x`, then the exponent part |
| PolyText.NoXInCoef | GitHub/Proyectos/Proy_Poli/pol_model.py:301-302 | a printed coefficient holds no `x` |
| PolyText.ParseXTerm | GitHub/Proyectos/Proy_Poli/pol_model.py:300-319 | a match with `x` is read from the text before and after the `x` |
| PolyText.ParseConstantToken | GitHub/Proyectos/Proy_Poli/pol_model.py:320-322 | a constant token reads back as its term |
| PolyText.XCoefOf | GitHub/Proyectos/Proy_Poli/pol_model.py:304-310 | the coefficient part of a printed token reads back as the coefficient |
| PolyText.XDegreeOf | GitHub/Proyectos/Proy_Poli/pol_model.py:313-319 | the exponent part of a printed token reads back as the degree |
| PolyText.ParseAll | GitHub/Proyectos/Proy_Poli/pol_model.py:292-326 | matches that each read as a term read together as the list of them |
| PolyText.ParseFails | GitHub/Proyectos/Proy_Poli/pol_model.py:310 | one match that `float()` or `int()` rejects makes the parse fail (also lines 315, 321) |
| PolyText.ParseTokens | GitHub/Proyectos/Proy_Poli/pol_model.py:292-326 | the tokens of a zero-free list read back as that list |
| PolyText.ParseDigit | GitHub/Proyectos/Proy_Poli/pol_model.py:279-326 | a single digit parses as that constant, `0` as the zero polynomial |
| PolyText.NormalizeDigit | GitHub/Proyectos/Proy_Poli/pol_model.py:280-286 | a single digit is given a `+` |
| PolyText.FindDigit | GitHub/Proyectos/Proy_Poli/pol_model.py:289-290 | a signed digit is one match |
| PolyText.FormatParseRoundTrip | GitHub/Proyectos/Proy_Poli/pol_model.py:133-168 | `_parse_poly(str(p)) == p` for every canonical polynomial |
| TermScanner.ScanTerms | GitHub/Proyectos/polinomio_flet/model/linked_polynomial.py:39-40 | reference definition of `re.findall` with the term pattern, each match read as a term; where nothing matches the scan moves on one character |
| TermScanner.DigitRun | GitHub/Proyectos/polinomio_flet/model/linked_polynomial.py:36 | a `\d*` run ends at a non-digit or the end |
| TermScanner.MatchAt | GitHub/Proyectos/polinomio_flet/model/linked_polynomial.py:36-37 | a match is at least a sign and one character, within the text |
| TermScanner.MatchSigned | GitHub/Proyectos/polinomio_flet/model/linked_polynomial.py:36-37 | a match after a sign fits the text |
| TermScanner.MatchX | GitHub/Proyectos/polinomio_flet/model/linked_polynomial.py:36-50 | a match with `x` covers sign, digits, `x` and at most the rest |
| TermScanner.DigitRunOf | GitHub/Proyectos/polinomio_flet/model/linked_polynomial.py:36 | digits before a non-digit are matched whole |
| TermScanner.ScanConstant | GitHub/Proyectos/polinomio_flet/model/linked_polynomial.py:39-55 | a signed constant is one term of degree 0 |
| TermScanner.ScanLinear | GitHub/Proyectos/polinomio_flet/model/linked_polynomial.py:39-55 | a signed `cx` is one term of degree 1, coefficient 1 when the digits are missing |
| TermScanner.MatchPower | GitHub/Proyectos/polinomio_flet/model/linked_polynomial.py:36-50 | `cx^e` is read with exponent `e` |
| TermScanner.ScanPower | GitHub/Proyectos/polinomio_flet/model/linked_polynomial.py:39-55 | a signed `cx^e` is one term of degree `e` |
| TermScanner.ScanToken | GitHub/Proyectos/polinomio_flet/model/linked_polynomial.py:36-55 | every printed token is read back as its term |
| TermScanner.SignedCoefficient | GitHub/Proyectos/polinomio_flet/model/linked_polynomial.py:44-48 | the sign and digits of a printed term read back as its coefficient |
| TermScanner.ScanConstantToken | GitHub/Proyectos/polinomio_flet/model/linked_polynomial.py:39-55 | a printed constant reads back |
| TermScanner.ScanLinearToken | GitHub/Proyectos/polinomio_flet/model/linked_polynomial.py:39-55 | a printed degree-1 term reads back |
| TermScanner.ScanPowerToken | GitHub/Proyectos/polinomio_flet/model/linked_polynomial.py:39-55 | a printed power term reads back |
| TermScanner.ScanTokens | GitHub/Proyectos/polinomio_flet/model/linked_polynomial.py:36-55 | scanning concatenated tokens gives every term back in order |
| DataStructures.PolyNode.constructor | GitHub/Proyectos/Proy_Poli/data_structures.py:5-10 | a node holds the given coefficient, degree and successor (Exa2/data_structures.py:5-19 is the same node, with the degree named `signo`) |
| DataStructures.LinkedList.constructor | GitHub/Proyectos/Proy_Poli/data_structures.py:14-15 | a new list is empty |
| DataStructures.LinkedList.Append | GitHub/Proyectos/Proy_Poli/data_structures.py:17-27 | one fresh node at the end; the earlier nodes and terms are unchanged and in order (also Exa2/data_structures.py:29-40) |
| DataStructures.LinkedList.FindLast | GitHub/Proyectos/Proy_Poli/data_structures.py:24-26 | the walk stops at the last node |
| DataStructures.LinkedList.LinkAt | GitHub/Proyectos/Proy_Poli/pol_model.py:58-63 | a fresh node is spliced in at position `k`; the other terms keep their order |
| DataStructures.LinkedList.UnlinkAt | GitHub/Proyectos/Proy_Poli/pol_model.py:52-56 | the node at `k` is unlinked through `prev.next` or `head` and nothing else moves |
| DataStructures.LinkedList.AddToCoefficientAt | GitHub/Proyectos/Proy_Poli/pol_model.py:49-51 | only the coefficient at `k` changes, by `c` |
| DataStructures.LinkedList.Relink | GitHub/Proyectos/Proy_Poli/pol_model.py:229-237 | the `next` chain is rebuilt in the given node order; the node set is unchanged |
| DataStructures.LinkChain | GitHub/Proyectos/Proy_Poli/pol_model.py:232-237 | each node points at the next in the sequence and the last at None |
| DataStructures.NodeTerms | GitHub/Proyectos/Proy_Poli/pol_model.py:222-228 | the terms of a node sequence, in order |
| DataStructures.Node.constructor | GitHub/Proyectos/Proy_Poli/data_structures.py:31-35 | a node holds the value and successor |
| DataStructures.Stack.constructor | GitHub/Proyectos/Proy_Poli/data_structures.py:39-40 | a new stack is empty |
| DataStructures.Stack.IsEmpty | GitHub/Proyectos/Proy_Poli/data_structures.py:42-43 | `is_empty` holds exactly when nothing is stored (also Exa2/data_structures.py:64-66) |
| DataStructures.Stack.Push | GitHub/Proyectos/Proy_Poli/data_structures.py:45-46 | the value becomes the new top; the rest is unchanged (also Exa2/data_structures.py:68-70) |
| DataStructures.Stack.Pop | GitHub/Proyectos/Proy_Poli/data_structures.py:48-53 | `None` and no change when empty; otherwise the top is removed and returned (also Exa2/data_structures.py:72-78) |
| DataStructures.Stack.Peek | GitHub/Proyectos/Proy_Poli/data_structures.py:55-58 | the top value or `None`, the stack unchanged (also Exa2/data_structures.py:80-84) |
| DataStructures.Stack.Size | GitHub/Proyectos/Exa2/data_structures.py:86-93 | the walk counts exactly the stored values |
| DataStructures.Queue.Valid | GitHub/Proyectos/Proy_Poli/data_structures.py:62-64 | head is None exactly when tail is None |
| DataStructures.Queue.constructor | GitHub/Proyectos/Proy_Poli/data_structures.py:62-64 | a new queue is empty |
| DataStructures.Queue.IsEmpty | GitHub/Proyectos/Proy_Poli/data_structures.py:66-67 | `is_empty` holds exactly when nothing is stored |
| DataStructures.Queue.Enqueue | GitHub/Proyectos/Proy_Poli/data_structures.py:69-75 | the value goes to the back; in an empty queue head and tail become the new node |
| DataStructures.Queue.Dequeue | GitHub/Proyectos/Proy_Poli/data_structures.py:77-84 | `None` when empty; otherwise the front is removed and returned, and tail is reset when the queue empties |
| DataStructures.Queue.Peek | GitHub/Proyectos/Proy_Poli/data_structures.py:86-89 | the front value or `None`, nothing changed |
| DataStructures.StackPushPop | GitHub/Proyectos/Proy_Poli/data_structures.py:45-53 | `push(v)` then `pop()` returns `v` and restores the stack |
| DataStructures.EnqueueAll | GitHub/Proyectos/Proy_Poli/data_structures.py:69-75 | `enqueue` of each value of `xs` in turn leaves the old contents followed by `xs`, with only fresh nodes added |
| DataStructures.Drain | GitHub/Proyectos/Proy_Poli/data_structures.py:77-84 | `dequeue` until `is_empty` returns the contents from the front in order and leaves the queue empty (also lines 66-67) |
| DataStructures.QueueFifo | GitHub/Proyectos/Proy_Poli/data_structures.py:69-84 | enqueueing any sequence `xs` onto a queue holding any contents and then dequeueing until `is_empty` yields the old contents followed by `xs`, leaving the queue empty |
| Polynomials.Polynomial.constructor | GitHub/Proyectos/Proy_Poli/pol_model.py:16-18 | a new polynomial has no terms |
| Polynomials.Polynomial.AddTerm | GitHub/Proyectos/Proy_Poli/pol_model.py:20-63 | the terms become `Insert(old, c, d)`, whose coefficient and canonical-form lemmas are above |
| Polynomials.Polynomial.LinkTerm | GitHub/Proyectos/Proy_Poli/pol_model.py:58-63 | a new node before the first smaller degree is the walk's result |
| Polynomials.Polynomial.CombineAt | GitHub/Proyectos/Proy_Poli/pol_model.py:49-56 | on an equal degree the coefficients are added and a zero node is unlinked |
| Polynomials.Polynomial.Locate | GitHub/Proyectos/Proy_Poli/pol_model.py:41-47 | the walk stops at the first node whose degree is not above `d` |
| Polynomials.Polynomial.Add | GitHub/Proyectos/Proy_Poli/pol_model.py:65-113 | a fresh polynomial holding `Merge` of the operands, which are unchanged |
| Polynomials.Polynomial.EmitNext | GitHub/Proyectos/Proy_Poli/pol_model.py:79-104 | one step of the merge walk keeps result plus the rest equal to the whole sum |
| Polynomials.Polynomial.NextSumTerm | GitHub/Proyectos/Proy_Poli/pol_model.py:79-96 | the term emitted from the two cursors and how far each cursor moves |
| Polynomials.Polynomial.KeepAtTail | GitHub/Proyectos/Proy_Poli/pol_model.py:97-104 | a non-zero term is linked at the tail; a zero one is dropped |
| Polynomials.Polynomial.Subtract | GitHub/Proyectos/Proy_Poli/pol_model.py:115-131 | a fresh polynomial holding `Sub` of the operands |
| Polynomials.Polynomial.Negated | GitHub/Proyectos/Proy_Poli/pol_model.py:120-125 | the negated terms rebuilt through `add_term` into a fresh polynomial |
| Polynomials.Polynomial.Clone | GitHub/Proyectos/Proy_Poli/pol_model.py:239-246 | a fresh polynomial, sharing no node, holding the terms rebuilt through `add_term` |
| Polynomials.Polynomial.SearchTerm | GitHub/Proyectos/Proy_Poli/pol_model.py:197-213 | the coefficient of the first term of the degree or `None`; nothing changes |
| Polynomials.Polynomial.DeleteTerm | GitHub/Proyectos/Proy_Poli/pol_model.py:170-195 | only the first node of the degree is unlinked; the answer is whether there was one |
| Polynomials.Polynomial.ToString | GitHub/Proyectos/Proy_Poli/pol_model.py:133-168 | the text is `Format` of the terms, which the round-trip lemma reads back |
| Polynomials.Polynomial.PieceString | GitHub/Proyectos/Proy_Poli/pol_model.py:143-165 | one term's part: sign, coefficient unless it is 1 on a power, `x`, `^degree` |
| Polynomials.Polynomial.SortTerms | GitHub/Proyectos/Proy_Poli/pol_model.py:215-237 | the same nodes relinked in the order `SortByDegree` gives |
| Polynomials.Polynomial.FromTerms | GitHub/Proyectos/Proy_Poli/pol_model.py:292-326 | a fresh polynomial with the terms added one by one through `add_term` |
| Polynomials.Polynomial.ParsePolynomial | GitHub/Proyectos/Proy_Poli/pol_model.py:268-326 | a fresh polynomial holding `ParsePoly(s)`, or none when a literal is rejected |
| Polynomials.Polynomial.ReadMatches | GitHub/Proyectos/Proy_Poli/pol_model.py:292-326 | the matches read and added in order, or none on the first rejected match |
| Polynomials.PlaceNew | GitHub/Proyectos/Proy_Poli/pol_model.py:58-63 | inserting before a smaller degree puts the new term at the stopping position |
| Polynomials.PlaceSame | GitHub/Proyectos/Proy_Poli/pol_model.py:49-56 | on an equal degree the node is updated, or removed when the sum is 0 |
| Polynomials.MergeFrom | GitHub/Proyectos/Proy_Poli/pol_model.py:79-104 | one step of `__add__` from positions `i` and `j`, in all three cases |
| Polynomials.InsertNode | GitHub/Proyectos/Proy_Poli/pol_model.py:222-228 | a stable insertion adds the node once and keeps the others |
| Polynomials.SortNodes | GitHub/Proyectos/Proy_Poli/pol_model.py:222-228 | `nodes.sort(key=degree)` gives nodes from the list, as many as there were |
| Polynomials.InsertNodeDistinct | GitHub/Proyectos/Proy_Poli/pol_model.py:222-228 | no node appears twice after an insertion |
| Polynomials.InsertNodeTerms | GitHub/Proyectos/Proy_Poli/pol_model.py:222-228 | the terms of the inserted nodes follow `InsertOrdered` |
| Polynomials.SortNodesDistinct | GitHub/Proyectos/Proy_Poli/pol_model.py:222-228 | the sorted nodes are distinct |
| Polynomials.SortNodesTerms | GitHub/Proyectos/Proy_Poli/pol_model.py:222-237 | the terms of the sorted nodes are the terms sorted by `SortByDegree` |
| Calculator.ProcessNext | GitHub/Proyectos/Proy_Poli/pol_model.py:414-448 | reference definition of `process_queue`: `false` on an empty queue, otherwise the first operation dequeued and performed; `Err` with the operation already dequeued when it raises |
| Calculator.SetOperands | GitHub/Proyectos/Proy_Poli/pol_model.py:328-338 | reference definition of `set_polynomials`: the first text parsed into `poly1`, the second (when given) into `poly2`; a text that does not parse leaves what was set before it |
| Calculator.AfterUndo | GitHub/Proyectos/Proy_Poli/pol_model.py:352-364 | reference definition of `undo`: pop the history, the result a clone of the new top or the zero polynomial; nothing on an empty history |
| Calculator.Perform | GitHub/Proyectos/Proy_Poli/pol_model.py:433-446 | the dispatch on the operation name changes only the result; a malformed argument list is an error |
| Calculator.UndoRestores | GitHub/Proyectos/Proy_Poli/pol_model.py:352-361 | `undo` drops the top of the history and restores the next entry as the result |
| Calculator.UndoToZero | GitHub/Proyectos/Proy_Poli/pol_model.py:357-364 | with one entry left the result becomes zero; with an empty history nothing changes |
| Calculator.QueueInOrder | GitHub/Proyectos/Proy_Poli/pol_model.py:389-448 | `process_queue` returns False on an empty queue, else runs exactly the oldest operation |
| Calculator.PerformCanonical | GitHub/Proyectos/Proy_Poli/pol_model.py:433-446 | add, subtract, add_term, delete_term and a descending sort keep the result canonical |
| Calculator.FormatStack | GitHub/Proyectos/Proy_Poli/pol_model.py:375-387 | one string per history entry, from the top down |
| Calculator.PolynomialModel.constructor | GitHub/Proyectos/Proy_Poli/pol_model.py:253-262 | zero operands and result, a history holding the zero polynomial, an empty queue |
| Calculator.PolynomialModel.ZeroOperands | GitHub/Proyectos/Proy_Poli/pol_model.py:255-257 | three fresh, separate, zero polynomials |
| Calculator.PolynomialModel.InitialStores | GitHub/Proyectos/Proy_Poli/pol_model.py:258-262 | a history holding the zero polynomial and an empty queue |
| Calculator.PolynomialModel.SetPolynomials | GitHub/Proyectos/Proy_Poli/pol_model.py:328-338 | poly1 is parsed; poly2 only when given |
| Calculator.PolynomialModel.ParseInto1 | GitHub/Proyectos/Proy_Poli/pol_model.py:336 | a text that parses becomes poly1; otherwise nothing changes |
| Calculator.PolynomialModel.ParseInto2 | GitHub/Proyectos/Proy_Poli/pol_model.py:337-338 | a text that parses becomes poly2; otherwise nothing changes |
| Calculator.PolynomialModel.SetPoly1 | GitHub/Proyectos/Proy_Poli/pol_model.py:336 | poly1 is replaced and nothing else changes |
| Calculator.PolynomialModel.SetPoly2 | GitHub/Proyectos/Proy_Poli/pol_model.py:338 | poly2 is replaced and nothing else changes |
| Calculator.PolynomialModel.SetResult | GitHub/Proyectos/Proy_Poli/pol_model.py:346 | the result is replaced and nothing else changes (also line 350) |
| Calculator.PolynomialModel.AddTermToPoly1 | GitHub/Proyectos/Proy_Poli/pol_model.py:340-342 | poly1 gains the term through `add_term` |
| Calculator.PolynomialModel.Add | GitHub/Proyectos/Proy_Poli/pol_model.py:344-346 | the result becomes poly1 + poly2 |
| Calculator.PolynomialModel.Subtract | GitHub/Proyectos/Proy_Poli/pol_model.py:348-350 | the result becomes poly1 - poly2 |
| Calculator.PolynomialModel.Undo | GitHub/Proyectos/Proy_Poli/pol_model.py:352-364 | the whole state becomes `AfterUndo` of the old one |
| Calculator.PolynomialModel.RestoreResult | GitHub/Proyectos/Proy_Poli/pol_model.py:359-364 | the result becomes a clone of the top of the history, or zero |
| Calculator.PolynomialModel.Restored | GitHub/Proyectos/Proy_Poli/pol_model.py:359-364 | a fresh clone of the top of a history, or the zero polynomial |
| Calculator.PolynomialModel.PopHistory | GitHub/Proyectos/Proy_Poli/pol_model.py:357-358 | the top of a non-empty history is dropped |
| Calculator.PolynomialModel.ClearHistory | GitHub/Proyectos/Proy_Poli/pol_model.py:366-369 | the history becomes empty and nothing else changes |
| Calculator.PolynomialModel.GetResultStr | GitHub/Proyectos/Proy_Poli/pol_model.py:371-373 | the text of the result |
| Calculator.PolynomialModel.GetHistoryList | GitHub/Proyectos/Proy_Poli/pol_model.py:375-387 | the text of every history entry, from the top down |
| Calculator.PolynomialModel.EnqueueOperation | GitHub/Proyectos/Proy_Poli/pol_model.py:389-397 | the operation goes to the back of the queue |
| Calculator.PolynomialModel.ProcessQueue | GitHub/Proyectos/Proy_Poli/pol_model.py:414-448 | the state and answer are `ProcessNext` of the old state |
| Calculator.PolynomialModel.DequeueOperation | GitHub/Proyectos/Proy_Poli/pol_model.py:424-428 | the oldest operation is removed and returned |
| Calculator.PolynomialModel.Dispatch | GitHub/Proyectos/Proy_Poli/pol_model.py:433-446 | the operation is applied as `Perform` says, or nothing changes |
| Calculator.PolynomialModel.AddTermToResult | GitHub/Proyectos/Proy_Poli/pol_model.py:437-439 | the result gains the term |
| Calculator.PolynomialModel.DeleteFromResult | GitHub/Proyectos/Proy_Poli/pol_model.py:440-442 | the result loses its term of that degree |
| Calculator.PolynomialModel.SortResult | GitHub/Proyectos/Proy_Poli/pol_model.py:443-446 | the result's terms are reordered by degree |
| LinkedPoly.QInsert | GitHub/Proyectos/polinomio_flet/model/linked_polynomial.py:8-29 | reference definition of `insert_term` as written: the walk stops at the last node whose successor does not have a higher exponent, merges there on an equal exponent or links the term in after it |
| LinkedPoly.InsertAll | GitHub/Proyectos/polinomio_flet/model/linked_polynomial.py:8-29 | `insert_term` applied to each term in turn |
| LinkedPoly.Emitted | GitHub/Proyectos/polinomio_flet/model/linked_polynomial.py:66-86 | reference definition of the terms the three loops of `add` pass to `insert_term`, in order |
| LinkedPoly.LSign | GitHub/Proyectos/polinomio_flet/model/linked_polynomial.py:97 | reference definition of the sign `to_string` writes: `" + "` after the first part for a non-negative coefficient, nothing on the first, `" - "` for a negative one |
| LinkedPoly.LPieces | GitHub/Proyectos/polinomio_flet/model/linked_polynomial.py:91-106 | reference definition of the parts `to_string` collects, one per node |
| LinkedPoly.LFormat | GitHub/Proyectos/polinomio_flet/model/linked_polynomial.py:88-107 | reference definition of `to_string`: `"0"` for an empty list, otherwise the parts joined with leading spaces and `+` stripped |
| LinkedPoly.Prepared | GitHub/Proyectos/polinomio_flet/model/linked_polynomial.py:34-38 | reference definition of the text `from_string` scans: spaces removed, a `+` in front unless it starts with a sign |
| LinkedPoly.FromText | GitHub/Proyectos/polinomio_flet/model/linked_polynomial.py:31-55 | reference definition of the terms `from_string` inserts, in order: none for a blank text, otherwise the matches of the term pattern |
| LinkedPoly.Stop | GitHub/Proyectos/polinomio_flet/model/linked_polynomial.py:15-16 | the scan stops at the last node before the exponent is no longer above `exp` |
| LinkedPoly.StopAbove | GitHub/Proyectos/polinomio_flet/model/linked_polynomial.py:15-16 | a scan that moved stops on an exponent above `exp` |
| LinkedPoly.EvalSingle | GitHub/Proyectos/polinomio_flet/model/linked_polynomial.py:57-63 | one term is worth `coef * x^exp` |
| LinkedPoly.EvalAround | GitHub/Proyectos/polinomio_flet/model/linked_polynomial.py:57-63 | replacing one term changes the value by the difference |
| LinkedPoly.EvalBumped | GitHub/Proyectos/polinomio_flet/model/linked_polynomial.py:17-19 | adding `c` to a node's coefficient adds `c * x^exp` |
| LinkedPoly.EvalDropped | GitHub/Proyectos/polinomio_flet/model/linked_polynomial.py:20-27 | unlinking a node subtracts its value |
| LinkedPoly.EvalPlacedAfter | GitHub/Proyectos/polinomio_flet/model/linked_polynomial.py:29 | a new node adds its value |
| LinkedPoly.QInsertEval | GitHub/Proyectos/polinomio_flet/model/linked_polynomial.py:8-29 | after `insert_term(c, e)`, `evaluate(x)` grows by exactly `c * x^e` |
| LinkedPoly.QInsertOrdered | GitHub/Proyectos/polinomio_flet/model/linked_polynomial.py:8-29 | `insert_term` keeps exponents non-increasing and stores no zero |
| LinkedPoly.PrependOrdered | GitHub/Proyectos/polinomio_flet/model/linked_polynomial.py:11-13 | a new head at or above the old one keeps the order |
| LinkedPoly.BumpOrdered | GitHub/Proyectos/polinomio_flet/model/linked_polynomial.py:17-19 | a changed coefficient keeps the order |
| LinkedPoly.DropOrdered | GitHub/Proyectos/polinomio_flet/model/linked_polynomial.py:20-27 | unlinking keeps the order |
| LinkedPoly.SliceOrdered | GitHub/Proyectos/polinomio_flet/model/linked_polynomial.py:66-86 | a suffix of an ordered list is ordered |
| LinkedPoly.InsertAfterOrdered | GitHub/Proyectos/polinomio_flet/model/linked_polynomial.py:29 | a node placed after the stop keeps the order |
| LinkedPoly.QInsertAppends | GitHub/Proyectos/polinomio_flet/model/linked_polynomial.py:8-29 | inserting below every exponent appends the term (or nothing if `c` is 0) |
| LinkedPoly.QInsertDuplicate | GitHub/Proyectos/polinomio_flet/model/linked_polynomial.py:15-17 | inserting `x` into `x^2 + x` gives a second node of exponent 1 instead of `2x` |
| LinkedPoly.InsertAllDuplicate | GitHub/Proyectos/polinomio_flet/model/linked_polynomial.py:31-55 | the text `x^2+x+x` is stored with two nodes of exponent 1 |
| LinkedPoly.InsertAllCons | GitHub/Proyectos/polinomio_flet/model/linked_polynomial.py:46-55 | inserting a list is inserting its head, then the rest |
| LinkedPoly.InsertAllEval | GitHub/Proyectos/polinomio_flet/model/linked_polynomial.py:8-29 | inserting terms one by one adds their values |
| LinkedPoly.InsertAllOrdered | GitHub/Proyectos/polinomio_flet/model/linked_polynomial.py:8-29 | inserting any terms keeps the list ordered and zero-free |
| LinkedPoly.InsertAllDescending | GitHub/Proyectos/polinomio_flet/model/linked_polynomial.py:8-29 | canonical terms below the list are appended as they are |
| LinkedPoly.InsertAllCanonical | GitHub/Proyectos/polinomio_flet/model/linked_polynomial.py:8-29 | a canonical list read back in its own order is rebuilt as it was |
| LinkedPoly.EmittedEval | GitHub/Proyectos/polinomio_flet/model/linked_polynomial.py:66-86 | the terms `add` inserts are worth the sum of both operands |
| LinkedPoly.EmitAppends | GitHub/Proyectos/polinomio_flet/model/linked_polynomial.py:66-86 | on descending operands the insertions build exactly the canonical sum |
| LinkedPoly.EmitStep | GitHub/Proyectos/polinomio_flet/model/linked_polynomial.py:70-80 | one emitted term lands at the end of the result |
| LinkedPoly.AddMerge | GitHub/Proyectos/polinomio_flet/model/linked_polynomial.py:66-86 | on strictly descending operands `add` gives the canonical sum `Merge` |
| LinkedPoly.AddEval | GitHub/Proyectos/polinomio_flet/model/linked_polynomial.py:66-86 | `evaluate(add(p1, p2), x) == evaluate(p1, x) + evaluate(p2, x)` for all operands |
| LinkedPoly.EmittedRest | GitHub/Proyectos/polinomio_flet/model/linked_polynomial.py:81-86 | once one operand is used up the rest of the other is copied |
| LinkedPoly.EmitFromA | GitHub/Proyectos/polinomio_flet/model/linked_polynomial.py:71-73 | the larger exponent of p1 is emitted first |
| LinkedPoly.EmitFromB | GitHub/Proyectos/polinomio_flet/model/linked_polynomial.py:74-76 | the larger exponent of p2 is emitted first |
| LinkedPoly.EmitFromBoth | GitHub/Proyectos/polinomio_flet/model/linked_polynomial.py:77-80 | equal exponents are emitted as one summed term |
| LinkedPoly.LPiecesAt | GitHub/Proyectos/polinomio_flet/model/linked_polynomial.py:92-105 | the part of node `i` followed by the later parts |
| LinkedPoly.LPiecesTail | GitHub/Proyectos/polinomio_flet/model/linked_polynomial.py:92-105 | after the first node the parts are those of the calculator's `__str__` |
| LinkedPoly.StripNegative | GitHub/Proyectos/polinomio_flet/model/linked_polynomial.py:107 | a leading `" - "` keeps its minus after `lstrip(" +")` |
| LinkedPoly.RemoveNegative | GitHub/Proyectos/polinomio_flet/model/linked_polynomial.py:34 | removing spaces after `"- "` leaves `-` in front |
| LinkedPoly.LFormatCons | GitHub/Proyectos/polinomio_flet/model/linked_polynomial.py:88-107 | the text is the first part, stripped, followed by the other parts |
| LinkedPoly.StripFirst | GitHub/Proyectos/polinomio_flet/model/linked_polynomial.py:107 | `lstrip(" +")` removes only the first part's sign |
| LinkedPoly.LFormatWithoutSpaces | GitHub/Proyectos/polinomio_flet/model/linked_polynomial.py:88-107 | `to_string` without spaces is the tokens, with an optional `-` in front |
| LinkedPoly.SignedWithoutSpaces | GitHub/Proyectos/polinomio_flet/model/linked_polynomial.py:34 | removing spaces keeps a leading minus |
| LinkedPoly.PreparedOf | GitHub/Proyectos/polinomio_flet/model/linked_polynomial.py:34-37 | the prepared text has a sign in front of the first term |
| LinkedPoly.PreparedFormat | GitHub/Proyectos/polinomio_flet/model/linked_polynomial.py:34-37 | the prepared `to_string` is the concatenated tokens |
| LinkedPoly.LinkedRoundTrip | GitHub/Proyectos/polinomio_flet/model/linked_polynomial.py:31-55 | `from_string(to_string(p))` into an empty list rebuilds every canonical `p` |
| LinkedPoly.TermNode.constructor | GitHub/Proyectos/polinomio_flet/model/term_node.py:1-7 | a node holds the coefficient, exponent and successor |
| LinkedPoly.LinkedPolynomial.NodeAt | GitHub/Proyectos/polinomio_flet/model/linked_polynomial.py:4-7 | node `k` carries term `k` and points at node `k+1` |
| LinkedPoly.LinkedPolynomial.constructor | GitHub/Proyectos/polinomio_flet/model/linked_polynomial.py:5-6 | a new polynomial is empty |
| LinkedPoly.LinkedPolynomial.InsertTerm | GitHub/Proyectos/polinomio_flet/model/linked_polynomial.py:8-29 | the terms become `QInsert(old, c, e)`, the code as written |
| LinkedPoly.LinkedPolynomial.Walk | GitHub/Proyectos/polinomio_flet/model/linked_polynomial.py:15-16 | the scan stops at node `Stop(…)` |
| LinkedPoly.LinkedPolynomial.Prepend | GitHub/Proyectos/polinomio_flet/model/linked_polynomial.py:11-13 | a new head in front of the old list |
| LinkedPoly.LinkedPolynomial.LinkAfter | GitHub/Proyectos/polinomio_flet/model/linked_polynomial.py:29 | a new node right after node `k` |
| LinkedPoly.LinkedPolynomial.AddToCoefficientAt | GitHub/Proyectos/polinomio_flet/model/linked_polynomial.py:18 | only node `k`'s coefficient changes |
| LinkedPoly.LinkedPolynomial.UnlinkHead | GitHub/Proyectos/polinomio_flet/model/linked_polynomial.py:20-21 | the head node is dropped |
| LinkedPoly.LinkedPolynomial.Emit | GitHub/Proyectos/polinomio_flet/model/linked_polynomial.py:73 | one `res.insert_term` brings the list one term closer to the target (also lines 76, 79) |
| LinkedPoly.LinkedPolynomial.Pick | GitHub/Proyectos/polinomio_flet/model/linked_polynomial.py:70-80 | the term chosen from the two cursors and the cursors' moves |
| LinkedPoly.LinkedPolynomial.EmitNode | GitHub/Proyectos/polinomio_flet/model/linked_polynomial.py:81-86 | one node of the tail copy is inserted; the source is unchanged |
| LinkedPoly.LinkedPolynomial.InsertRest | GitHub/Proyectos/polinomio_flet/model/linked_polynomial.py:81-86 | the tail loops insert every remaining term |
| LinkedPoly.LinkedPolynomial.MergeWalk | GitHub/Proyectos/polinomio_flet/model/linked_polynomial.py:69-80 | the main loop of `add` runs until one operand is used up; p1 and p2 unchanged |
| LinkedPoly.LinkedPolynomial.Finish | GitHub/Proyectos/polinomio_flet/model/linked_polynomial.py:81-86 | the remaining terms of the other operand are inserted |
| LinkedPoly.LinkedPolynomial.FromString | GitHub/Proyectos/polinomio_flet/model/linked_polynomial.py:31-55 | every scanned term is inserted in order; a blank text changes nothing |
| LinkedPoly.LinkedPolynomial.Evaluate | GitHub/Proyectos/polinomio_flet/model/linked_polynomial.py:57-63 | the sum of `coef * x^exp` over the nodes |
| LinkedPoly.LinkedPolynomial.ToString | GitHub/Proyectos/polinomio_flet/model/linked_polynomial.py:88-107 | `LFormat` of the terms: `"0"` when empty, round-trips through `from_string` |
| LinkedPoly.Add | GitHub/Proyectos/polinomio_flet/model/linked_polynomial.py:65-86 | a new polynomial separate from the operands, built by inserting the merge-walk terms; see AddEval and AddMerge |
| DynamicPoly.Coef | GitHub/Proyectos/flet_app/pol_model.py:30-32 | reference definition of `dict.get(degree, 0)` |
| DynamicPoly.Listed | GitHub/Proyectos/flet_app/pol_model.py:60-100 | reference definition of the order `__str__` prints: the stored terms from the highest degree down |
| DynamicPoly.ReadTerms | GitHub/Proyectos/flet_app/pol_model.py:115-128 | reference definition of the terms `_parse_poly` reads: none for a blank text, otherwise the term-pattern matches of the normalised text |
| DynamicPoly.Accumulate | GitHub/Proyectos/flet_app/pol_model.py:150-152 | reference definition of the loop of `_parse_poly`: each term added to the existing coefficient of its degree with `set_coefficient` |
| DynamicPoly.Parsed | GitHub/Proyectos/flet_app/pol_model.py:115-154 | reference definition of the dictionary `_parse_poly` returns |
| DynamicPoly.DynamicPolynomial.GetCoefficient | GitHub/Proyectos/flet_app/pol_model.py:30-32 | `get_coefficient(degree)`: the stored coefficient, 0 when the degree is not stored; reads the dictionary and changes nothing |
| DynamicPoly.Assigned | GitHub/Proyectos/flet_app/pol_model.py:21-28 | `set_coefficient` sets one degree, deletes it on zero, and never stores a zero |
| DynamicPoly.SameCoefficients | GitHub/Proyectos/flet_app/pol_model.py:30-32 | zero-free dictionaries with equal `get_coefficient` everywhere are equal |
| DynamicPoly.GetCoefficientAbsent | GitHub/Proyectos/flet_app/pol_model.py:30-32 | in a zero-free dictionary the coefficient is 0 exactly when the degree is absent |
| DynamicPoly.MaxKey | GitHub/Proyectos/flet_app/pol_model.py:36 | `max(keys)` is a key and bounds every key |
| DynamicPoly.SortedKeys | GitHub/Proyectos/flet_app/pol_model.py:66 | `sorted(keys, reverse=True)`: every key once, strictly descending |
| DynamicPoly.TermsAt | GitHub/Proyectos/flet_app/pol_model.py:68-69 | the term at each listed degree |
| DynamicPoly.TermsAtCoef | GitHub/Proyectos/flet_app/pol_model.py:66-69 | the listed terms carry the dictionary's coefficients |
| DynamicPoly.ListedCanonical | GitHub/Proyectos/flet_app/pol_model.py:62-100 | `__str__` goes through the terms in strictly descending degree, with the stored coefficients |
| DynamicPoly.Sum | GitHub/Proyectos/flet_app/pol_model.py:38-47 | the coefficient of `__add__` at every degree is the sum, and no zero is stored |
| DynamicPoly.Difference | GitHub/Proyectos/flet_app/pol_model.py:49-58 | the coefficient of `__sub__` at every degree is the difference, and no zero is stored |
| DynamicPoly.SumCommutes | GitHub/Proyectos/flet_app/pol_model.py:38-47 | `p + q == q + p` |
| DynamicPoly.DifferenceSelf | GitHub/Proyectos/flet_app/pol_model.py:49-58 | `p - p` is empty |
| DynamicPoly.SumEmpty | GitHub/Proyectos/flet_app/pol_model.py:38-47 | adding the empty polynomial gives a zero-free `p` back |
| DynamicPoly.DifferenceThenSum | GitHub/Proyectos/flet_app/pol_model.py:38-58 | `(p - q) + q == p` |
| DynamicPoly.AccumulateCoef | GitHub/Proyectos/flet_app/pol_model.py:150-152 | adding the read terms with `existing + coeff` sums them at each degree and stores no zero |
| DynamicPoly.ParseSums | GitHub/Proyectos/flet_app/pol_model.py:130-154 | `_parse_poly` sums repeated degrees, such as `2x+3x` |
| DynamicPoly.ParseBlank | GitHub/Proyectos/flet_app/pol_model.py:118-120 | a blank text is the empty polynomial |
| DynamicPoly.ParseZero | GitHub/Proyectos/flet_app/pol_model.py:147-152 | `"0"` reads as the empty polynomial, since zero is not stored |
| DynamicPoly.NonEmptyRoundTrip | GitHub/Proyectos/flet_app/pol_model.py:60-100 | `_parse_poly(str(p))` gives a non-empty `p` back |
| DynamicPoly.DynamicRoundTrip | GitHub/Proyectos/flet_app/pol_model.py:60-154 | `_parse_poly(str(p))` gives every `p` back, "0" included |
| DynamicPoly.DynamicPolynomial.constructor | GitHub/Proyectos/flet_app/pol_model.py:17-19 | a new polynomial is empty |
| DynamicPoly.DynamicPolynomial.SetCoefficient | GitHub/Proyectos/flet_app/pol_model.py:21-28 | the dictionary becomes `Assigned(old, degree, coefficient)` |
| DynamicPoly.DynamicPolynomial.GetDegree | GitHub/Proyectos/flet_app/pol_model.py:34-36 | the largest stored degree, or 0 for the empty polynomial |
| DynamicPoly.DynamicPolynomial.ToString | GitHub/Proyectos/flet_app/pol_model.py:60-100 | the text is `Format` of the terms from the highest degree down |
| DynamicPoly.FormatDictionary | GitHub/Proyectos/flet_app/pol_model.py:62-100 | "0" for the empty dictionary, else the parts joined with the leading " +" stripped |
| DynamicPoly.DictionaryPieces | GitHub/Proyectos/flet_app/pol_model.py:65-98 | the loop builds one part per degree from the highest down |
| DynamicPoly.AppendPiece | GitHub/Proyectos/flet_app/pol_model.py:68-98 | one iteration appends the part of the `i`-th degree |
| DynamicPoly.ListedAt | GitHub/Proyectos/flet_app/pol_model.py:68-69 | the `i`-th listed term is the stored coefficient of the `i`-th degree, never zero |
| DynamicPoly.Piece | GitHub/Proyectos/flet_app/pol_model.py:77-98 | sign, coefficient unless 1 on a power of x, `x`, `^degree` |
| DynamicPoly.PiecesAt | GitHub/Proyectos/flet_app/pol_model.py:68-98 | the parts from `i` are part `i` followed by the rest |
| DynamicPoly.Add | GitHub/Proyectos/flet_app/pol_model.py:38-47 | a fresh polynomial whose dictionary is `Sum` of the operands |
| DynamicPoly.Subtract | GitHub/Proyectos/flet_app/pol_model.py:49-58 | a fresh polynomial whose dictionary is `Difference` of the operands |
| DynamicPoly.ParsePoly | GitHub/Proyectos/flet_app/pol_model.py:115-154 | a fresh polynomial whose dictionary is `Parsed(s)` |
| InfixTokens.SignAt | GitHub/Proyectos/Exa2/pol_model.py:40 | reference definition of a sign: a `-` at the start or right after `(` or an operator character |
| InfixTokens.Recorded | GitHub/Proyectos/Exa2/pol_model.py:54-57 | reference definition of the tokens `_tokenize` records in `operator_history`: a single operator character that is not a sign |
| InfixTokens.ScanFrom | GitHub/Proyectos/Exa2/pol_model.py:36-59 | reference definition of the `_tokenize` loop from a position on: the tokens and the recorded operators |
| InfixTokens.Scan | GitHub/Proyectos/Exa2/pol_model.py:31-59 | reference definition of `_tokenize`: `ScanFrom` from position 0 |
| InfixTokens.DigitRun | GitHub/Proyectos/Exa2/pol_model.py:43-45 | the digit run is maximal |
| InfixTokens.AlnumRun | GitHub/Proyectos/Exa2/pol_model.py:50-52 | the alphanumeric run is maximal |
| InfixTokens.TokenEnd | GitHub/Proyectos/Exa2/pol_model.py:40-58 | every token takes at least one character |
| InfixTokens.Tokenize | GitHub/Proyectos/Exa2/pol_model.py:31-59 | the tokens and the operator history are those of `Scan` |
| InfixTokens.TokenizeStep | GitHub/Proyectos/Exa2/pol_model.py:36-58 | one iteration moves forward and keeps the tokens read plus those to come |
| InfixTokens.ReadToken | GitHub/Proyectos/Exa2/pol_model.py:40-58 | where the token ends, and whether its operator is recorded |
| InfixTokens.WithoutSpaces | GitHub/Proyectos/Exa2/pol_model.py:37-39 | the text without whitespace is no longer |
| InfixTokens.WithoutSpacesAppend | GitHub/Proyectos/Exa2/pol_model.py:37-39 | removing whitespace distributes over concatenation |
| InfixTokens.WithoutSpacesNone | GitHub/Proyectos/Exa2/pol_model.py:37-39 | a text without whitespace is kept |
| InfixTokens.TokenIsWord | GitHub/Proyectos/Exa2/pol_model.py:40-58 | a token is non-empty and holds no whitespace |
| InfixTokens.TokensAreWords | GitHub/Proyectos/Exa2/pol_model.py:31-59 | every token is non-empty and holds no whitespace |
| InfixTokens.TokensJoined | GitHub/Proyectos/Exa2/pol_model.py:31-59 | the tokens joined are the text without its whitespace |
| InfixTokens.NoOperatorsInside | GitHub/Proyectos/Exa2/pol_model.py:40-53 | no operator is recorded inside a number or name |
| InfixTokens.HistoryIsOperators | GitHub/Proyectos/Exa2/pol_model.py:40-58 | the history is every operator character that is not a sign, in order |
| InfixTokens.NumeralIsOneToken | GitHub/Proyectos/Exa2/pol_model.py:40-46 | a digit run is one token and records nothing |
| InfixTokens.DigitRunToEnd | GitHub/Proyectos/Exa2/pol_model.py:43-45 | an all-digit text is one run |
| InfixConvert.Step | GitHub/Proyectos/Exa2/pol_model.py:125-139 | reference definition of one token of the conversion pass: an operand to the output, `(` pushed, `)` closing, any other token pushed after the pops (also lines 87-101) |
| InfixConvert.CloseParen | GitHub/Proyectos/Exa2/pol_model.py:131-135 | reference definition of `)`: every operator above the topmost `(` popped to the output, then that `(` dropped if there is one (also lines 93-97) |
| InfixConvert.PushOperator | GitHub/Proyectos/Exa2/pol_model.py:136-139 | reference definition of an operator token: the operators `PopCount` allows popped to the output, then the token pushed (also lines 98-101) |
| InfixConvert.Run | GitHub/Proyectos/Exa2/pol_model.py:125-139 | reference definition of the pass over all tokens (also lines 87-101) |
| InfixConvert.Converted | GitHub/Proyectos/Exa2/pol_model.py:124-142 | reference definition of the pass followed by popping every operator left, from the top down (also lines 86-104) |
| InfixConvert.PostfixTokens | GitHub/Proyectos/Exa2/pol_model.py:110-144 | reference definition of the tokens of `infix_to_postfix`: the pass popping on `>=` |
| InfixConvert.PrefixTokens | GitHub/Proyectos/Exa2/pol_model.py:61-106 | reference definition of the tokens of `infix_to_prefix`: the reversed tokens with parentheses swapped, the pass popping on `>`, the output reversed |
| InfixConvert.Precedence | GitHub/Proyectos/Exa2/pol_model.py:21-29 | 1 for `+ -`, 2 for `* /`, 3 for `^`, 0 for everything else |
| InfixConvert.PopCount | GitHub/Proyectos/Exa2/pol_model.py:99-100 | the pop loop takes at most the whole stack (also lines 137-138) |
| InfixConvert.PopCountSpec | GitHub/Proyectos/Exa2/pol_model.py:99-100 | it pops exactly the top operators that rank `>=` (postfix) or `>` (prefix) (also lines 137-138) |
| InfixConvert.OpenIndex | GitHub/Proyectos/Exa2/pol_model.py:94-95 | the `)` loop stops within the stack (also lines 132-133) |
| InfixConvert.OpenIndexSpec | GitHub/Proyectos/Exa2/pol_model.py:94-95 | it stops at the topmost `(`, or empties the stack (also lines 132-133) |
| InfixConvert.OperandsAppend | GitHub/Proyectos/Exa2/pol_model.py:126-128 | the operands of joined lists are joined |
| InfixConvert.OperandsNone | GitHub/Proyectos/Exa2/pol_model.py:126-128 | a list without operands has none |
| InfixConvert.StepKeepsOperands | GitHub/Proyectos/Exa2/pol_model.py:125-139 | each token keeps the output's operands equal to those read |
| InfixConvert.RunKeepsOperands | GitHub/Proyectos/Exa2/pol_model.py:125-139 | the whole pass keeps them equal |
| InfixConvert.ConvertedOperands | GitHub/Proyectos/Exa2/pol_model.py:124-144 | both passes output the operands in input order |
| InfixConvert.OperandsReverse | GitHub/Proyectos/Exa2/pol_model.py:75 | reversing reverses the operands (also line 106) |
| InfixConvert.ParenNotOperand | GitHub/Proyectos/Exa2/pol_model.py:88 | parentheses are not operands (also line 126) |
| InfixConvert.OperandsSwapped | GitHub/Proyectos/Exa2/pol_model.py:77-84 | exchanging parentheses keeps the operands |
| InfixConvert.PrefixOperands | GitHub/Proyectos/Exa2/pol_model.py:71-106 | the prefix output keeps the operands in input order |
| InfixConvert.StepKeepsParens | GitHub/Proyectos/Exa2/pol_model.py:125-139 | each token keeps output plus stack equal to the tokens read, minus the closed parentheses |
| InfixConvert.StepOperand | GitHub/Proyectos/Exa2/pol_model.py:126-128 | an operand goes to the output |
| InfixConvert.StepOpen | GitHub/Proyectos/Exa2/pol_model.py:129-130 | `(` goes onto the stack |
| InfixConvert.StepClose | GitHub/Proyectos/Exa2/pol_model.py:131-135 | `)` pops to the matching `(` and drops both |
| InfixConvert.OpenOnStack | GitHub/Proyectos/Exa2/pol_model.py:131-135 | when a parenthesis is open, a `(` is on the stack |
| InfixConvert.StepOperator | GitHub/Proyectos/Exa2/pol_model.py:136-139 | an operator is pushed after the pops |
| InfixConvert.RunKeepsParens | GitHub/Proyectos/Exa2/pol_model.py:125-139 | the pass keeps that count over any well-formed input |
| InfixConvert.ConvertedPermutation | GitHub/Proyectos/Exa2/pol_model.py:124-144 | with balanced parentheses the output is the input's non-parenthesis tokens, each once |
| InfixConvert.ReverseMultiset | GitHub/Proyectos/Exa2/pol_model.py:75 | reversing keeps the tokens (also line 106) |
| InfixConvert.MirrorFacts | GitHub/Proyectos/Exa2/pol_model.py:79-84 | `(` and `)` are exchanged, other tokens are kept |
| InfixConvert.SwappedCount | GitHub/Proyectos/Exa2/pol_model.py:77-84 | exchanging parentheses exchanges their counts |
| InfixConvert.SwappedMultiset | GitHub/Proyectos/Exa2/pol_model.py:77-84 | exchanging keeps the other tokens and negates the depth |
| InfixConvert.MirrorPrefix | GitHub/Proyectos/Exa2/pol_model.py:75-84 | the depth of a prefix of the mirrored tokens |
| InfixConvert.ReversePrefix | GitHub/Proyectos/Exa2/pol_model.py:75 | a prefix of the reversal is the reversed suffix |
| InfixConvert.SwappedPrefix | GitHub/Proyectos/Exa2/pol_model.py:77-84 | exchanging commutes with taking a prefix |
| InfixConvert.MirrorBalanced | GitHub/Proyectos/Exa2/pol_model.py:75-84 | reversed and exchanged, balanced input stays balanced |
| InfixConvert.MirrorWellFormed | GitHub/Proyectos/Exa2/pol_model.py:75-84 | reversed and exchanged, well-formed input stays well-formed |
| InfixConvert.PrefixPermutation | GitHub/Proyectos/Exa2/pol_model.py:71-106 | with balanced parentheses the prefix output is the non-parenthesis tokens, each once |
| InfixEval.IsNumberToken | GitHub/Proyectos/Exa2/pol_model.py:153 | reference definition of a number token: `isdigit()`, or a `-` followed by digits (also line 179) |
| InfixEval.NumberValue | GitHub/Proyectos/Exa2/pol_model.py:154 | reference definition of `int(token)` on a number token (also line 180) |
| InfixEval.Combine | GitHub/Proyectos/Exa2/pol_model.py:160-169 | reference definition of the operator dispatch: `+`, `-`, `*`, `/` with the division-by-zero message, and an operator without a branch pushing nothing (also lines 186-195) |
| InfixEval.EvalStep | GitHub/Proyectos/Exa2/pol_model.py:153-169 | reference definition of one token of either evaluator on the value stack (also lines 179-195) |
| InfixEval.PostfixValue | GitHub/Proyectos/Exa2/pol_model.py:174-198 | reference definition of `evaluate_postfix`: the words of the text read left to right |
| InfixEval.PrefixValue | GitHub/Proyectos/Exa2/pol_model.py:148-172 | reference definition of `evaluate_prefix`: the words of the text read right to left |
| InfixEval.EvalFrom | GitHub/Proyectos/Exa2/pol_model.py:148-198 | an evaluation fails only with one of the two messages |
| InfixEval.Apply | GitHub/Proyectos/Exa2/pol_model.py:160-169 | an arithmetic operator fails only on division by zero |
| InfixEval.Denote | GitHub/Proyectos/Exa2/pol_model.py:148-198 | the value of an expression tree, failing only on division by zero |
| InfixEval.NumeralValue | GitHub/Proyectos/Exa2/pol_model.py:153-154 | `int(str(n)) == n` for every integer (also lines 179-180) |
| InfixEval.NegativeNumeral | GitHub/Proyectos/Exa2/pol_model.py:153-154 | `-m` is a number token worth `-m` |
| InfixEval.OperatorToken | GitHub/Proyectos/Exa2/pol_model.py:155 | an operator character is not a number token (also line 181) |
| InfixEval.ReadNumeral | GitHub/Proyectos/Exa2/pol_model.py:153-154 | a number token pushes its value (also lines 179-180) |
| InfixEval.ReadOperator | GitHub/Proyectos/Exa2/pol_model.py:156-169 | an operator pops two values and pushes the result, left operand as each notation says (also lines 182-195) |
| InfixEval.CombineApply | GitHub/Proyectos/Exa2/pol_model.py:160-169 | the operator dispatch agrees with `Apply` |
| InfixEval.PostfixEvaluates | GitHub/Proyectos/Exa2/pol_model.py:174-195 | the postfix tokens of a tree push its value, or stop at division by zero |
| InfixEval.PrefixEvaluates | GitHub/Proyectos/Exa2/pol_model.py:148-169 | the prefix tokens read right to left push its value, or stop at division by zero |
| InfixEval.PostfixWords | GitHub/Proyectos/Exa2/pol_model.py:177 | postfix tokens survive `split()` |
| InfixEval.PrefixWords | GitHub/Proyectos/Exa2/pol_model.py:151 | prefix tokens survive `split()` |
| InfixEval.PostfixCorrect | GitHub/Proyectos/Exa2/pol_model.py:174-198 | `evaluate_postfix` of a tree's postfix text is its value |
| InfixEval.PrefixCorrect | GitHub/Proyectos/Exa2/pol_model.py:148-172 | `evaluate_prefix` of a tree's prefix text is its value |
| InfixEval.InfixOf | GitHub/Proyectos/Exa2/pol_model.py:31-59 | the fully parenthesised infix text of an expression tree, as the tokens `_tokenize` produces for it: a numeral, or `(`, left operand, operator, right operand, `)` |
| InfixEval.Mirrored | GitHub/Proyectos/Exa2/pol_model.py:75-84 | the tree with the two operands of every operator exchanged, which is what reversing the tokens and swapping the parentheses reads |
| InfixEval.NumeralOperand | GitHub/Proyectos/Exa2/pol_model.py:126 | every integer numeral, signed or not, passes the operand test of both passes and goes straight to the output (also line 88) |
| InfixEval.OperatorShape | GitHub/Proyectos/Exa2/pol_model.py:136-139 | an arithmetic operator is neither an operand nor a parenthesis and has precedence at least 1, so it takes the operator branch and never pops a `(` (also lines 21-29) |
| InfixEval.OpenStep | GitHub/Proyectos/Exa2/pol_model.py:129-130 | `(` is pushed on the operator stack and nothing is output (also lines 91-92) |
| InfixEval.OperatorStep | GitHub/Proyectos/Exa2/pol_model.py:136-139 | an operator arriving on a `(` pops nothing and is pushed, under both the `>=` and the `>` rule (also lines 98-101) |
| InfixEval.CloseStep | GitHub/Proyectos/Exa2/pol_model.py:131-135 | `)` pops the one operator above its `(` to the output and drops the `(` (also lines 93-97) |
| InfixEval.RunInfix | GitHub/Proyectos/Exa2/pol_model.py:125-139 | the pass over the tokens of a fully parenthesised tree, from any output and any operator stack, appends exactly the tree's postfix form to the output and leaves the stack as it was, under both pop rules |
| InfixEval.ConvertsToPostfix | GitHub/Proyectos/Exa2/pol_model.py:110-144 | `infix_to_postfix` converts: the fully parenthesised infix tokens of any arithmetic tree become exactly its postfix tokens |
| InfixEval.MirroredArithmetic | GitHub/Proyectos/Exa2/pol_model.py:75-84 | mirroring keeps a tree arithmetic |
| InfixEval.MirrorInfix | GitHub/Proyectos/Exa2/pol_model.py:75-84 | reversing the infix tokens of a tree and exchanging its parentheses gives the infix tokens of the mirrored tree |
| InfixEval.ReverseMirrored | GitHub/Proyectos/Exa2/pol_model.py:106 | the postfix form of the mirrored tree, reversed, is the prefix form of the tree |
| InfixEval.ConvertsToPrefix | GitHub/Proyectos/Exa2/pol_model.py:61-106 | `infix_to_prefix` converts: the fully parenthesised infix tokens of any arithmetic tree become exactly its prefix tokens |
| InfixEval.PostfixOfInfix | GitHub/Proyectos/Exa2/pol_model.py:144-145 | the value `infix_to_postfix` reports for the infix text of any arithmetic tree is the tree's value, or the division-by-zero error where the tree divides by zero |
| InfixEval.PrefixOfInfix | GitHub/Proyectos/Exa2/pol_model.py:106-107 | the value `infix_to_prefix` reports for the infix text of any arithmetic tree is the tree's value, or the division-by-zero error where the tree divides by zero |
| InfixEval.MissingOperand | GitHub/Proyectos/Exa2/pol_model.py:156-157 | an operator with fewer than 2 values is an invalid expression (also lines 182-183) |
| InfixEval.ZeroDivisor | GitHub/Proyectos/Exa2/pol_model.py:166-168 | division by zero is reported (also lines 192-194) |
| InfixEval.LeftoverValues | GitHub/Proyectos/Exa2/pol_model.py:170-172 | the result is the one value left, else an invalid expression (also lines 196-198) |
| InfixEval.UnknownOperator | GitHub/Proyectos/Exa2/pol_model.py:158-169 | `^` consumes two values and pushes nothing |
| InfixEval.ReadValue | GitHub/Proyectos/Exa2/pol_model.py:153-169 | one token on the linked stack, as `EvalStep` says (also lines 179-195) |
| InfixEval.FinalValue | GitHub/Proyectos/Exa2/pol_model.py:170-172 | the end of the evaluation on the linked stack (also lines 196-198) |
| InfixEval.EvaluatePostfix | GitHub/Proyectos/Exa2/pol_model.py:174-198 | `evaluate_postfix` with a linked stack computes `PostfixValue` |
| InfixEval.EvaluatePrefix | GitHub/Proyectos/Exa2/pol_model.py:148-172 | `evaluate_prefix` with a linked stack computes `PrefixValue` |
| InfixModel.PopOnto | GitHub/Proyectos/Exa2/pol_model.py:95 | `out.append(ops.pop())` (also lines 100, 133, 138, 142) |
| InfixModel.PopWhile | GitHub/Proyectos/Exa2/pol_model.py:99-100 | the pop loop moves exactly `PopCount` operators to the output (also lines 137-138) |
| InfixModel.PopCountStep | GitHub/Proyectos/Exa2/pol_model.py:99-100 | an operator on top that outranks the token is popped and counted (also lines 137-138) |
| InfixModel.PopCountStop | GitHub/Proyectos/Exa2/pol_model.py:99 | the loop stops on an empty stack or on an operator that does not outrank the token (also line 137) |
| InfixModel.Outranked | GitHub/Proyectos/Exa2/pol_model.py:99 | the loop guard: the stack is not empty and its top outranks the token (also line 137) |
| InfixModel.PopToOpen | GitHub/Proyectos/Exa2/pol_model.py:94-95 | the `)` loop moves the operators above the topmost `(` to the output (also lines 132-133) |
| InfixModel.OpenIndexStep | GitHub/Proyectos/Exa2/pol_model.py:94 | a non-`(` top is popped (also line 132) |
| InfixModel.OpenIndexStop | GitHub/Proyectos/Exa2/pol_model.py:94 | the loop stops at `(` or on an empty stack (also line 132) |
| InfixModel.Flush | GitHub/Proyectos/Exa2/pol_model.py:103-104 | every operator left goes to the output from the top down (also lines 141-142) |
| InfixModel.ShuntToken | GitHub/Proyectos/Exa2/pol_model.py:87-101 | one token on the two linked stacks, as `Step` says; operands are pushed on the terms stack (also lines 125-139) |
| InfixModel.CloseParenOn | GitHub/Proyectos/Exa2/pol_model.py:93-97 | a `)` on the linked stack (also lines 131-135) |
| InfixModel.PushOperatorOn | GitHub/Proyectos/Exa2/pol_model.py:98-101 | an operator on the linked stack (also lines 136-139) |
| InfixModel.TermsSnoc | GitHub/Proyectos/Exa2/pol_model.py:90 | the terms stack holds the operands read, newest on top (also line 128) |
| InfixModel.PrefixTermsOrder | GitHub/Proyectos/Exa2/pol_model.py:75-90 | after the prefix pass the terms stack holds the operands in input order |
| InfixModel.MirrorTokens | GitHub/Proyectos/Exa2/pol_model.py:77-84 | the loop exchanges `(` and `)` |
| InfixModel.Shunting | GitHub/Proyectos/Exa2/pol_model.py:87-104 | the pass on linked stacks outputs `Converted`, empties the operator stack and stacks the operands (also lines 125-142) |
| InfixModel.PostfixOn | GitHub/Proyectos/Exa2/pol_model.py:122-146 | tokenizing, the `>=` pass, the join and the evaluation |
| InfixModel.PrefixOn | GitHub/Proyectos/Exa2/pol_model.py:74-108 | tokenizing, reversing, exchanging, the `>` pass, reversing, the join and the evaluation |
| InfixModel.TokenWellFormed | GitHub/Proyectos/Exa2/pol_model.py:40-58 | each token of the expression characters is an operand, a parenthesis or an operator |
| InfixModel.ScanWellFormed | GitHub/Proyectos/Exa2/pol_model.py:31-59 | the tokens of such an expression are well-formed |
| InfixModel.PostfixKeepsTokens | GitHub/Proyectos/Exa2/pol_model.py:110-144 | with balanced parentheses the postfix text holds every non-parenthesis token once |
| InfixModel.PrefixKeepsTokens | GitHub/Proyectos/Exa2/pol_model.py:61-106 | the same for the prefix text |
| InfixModel.InfixToPrefixModel.constructor | GitHub/Proyectos/Exa2/pol_model.py:14-19 | two empty stacks, an empty history and an empty result |
| InfixModel.InfixToPrefixModel.InfixToPostfix | GitHub/Proyectos/Exa2/pol_model.py:110-146 | the history, the postfix text, its evaluation, an empty operator stack and the operands on the terms stack |
| InfixModel.InfixToPrefixModel.InfixToPrefix | GitHub/Proyectos/Exa2/pol_model.py:61-108 | the same for the prefix text |
| InfixModel.InfixToPrefixModel.TermsList | GitHub/Proyectos/Exa2/pol_model.py:200-207 | the terms stack from the top down |
| Figures.Figure.constructor | GitHub/Proyectos/Flet_Figuras/po_model.py:4-7 | a figure with the given shape and colour |
| Figures.RingNode.constructor | GitHub/Proyectos/Flet_Figuras/data_structures.py:11-17 | a node with the figure and no links |
| Figures.CircularLinkedList.constructor | GitHub/Proyectos/Flet_Figuras/data_structures.py:25-29 | a new ring is empty |
| Figures.CircularLinkedList.IsEmpty | GitHub/Proyectos/Flet_Figuras/data_structures.py:31-35 | `is_empty` holds exactly when there is no node |
| Figures.CircularLinkedList.Insert | GitHub/Proyectos/Flet_Figuras/data_structures.py:37-51 | a fresh node at the end, between the old last node and the head; earlier nodes and head stay |
| Figures.CircularLinkedList.GetNodes | GitHub/Proyectos/Flet_Figuras/data_structures.py:53-66 | every node once, in insertion order from the head; `[]` when empty |
| Figures.LinksAgree | GitHub/Proyectos/Flet_Figuras/data_structures.py:37-51 | for every node, `next.prev` and `prev.next` are the node |
| Figures.Successor | GitHub/Proyectos/Flet_Figuras/data_structures.py:44 | `next` of the last node is the head (also line 50) |
| Figures.Predecessor | GitHub/Proyectos/Flet_Figuras/data_structures.py:45 | `prev` of the head is the last node (also line 51) |
| Figures.AtHead | GitHub/Proyectos/Flet_Figuras/data_structures.py:64 | a node is the head exactly at position 0 |
| Figures.NewColorManager | GitHub/Proyectos/Flet_Figuras/po_model.py:11-13 | the palette and its size |
| Figures.GetColor | GitHub/Proyectos/Flet_Figuras/po_model.py:15-17 | the colour is one of the palette's, for every loop count |
| Figures.FirstLap | GitHub/Proyectos/Flet_Figuras/po_model.py:15-17 | with loop count 0 the figure at `i` gets `colors[i]` |
| Figures.ColorShift | GitHub/Proyectos/Flet_Figuras/po_model.py:15-17 | one more lap shifts every figure one colour along |
| Figures.ColorPeriodic | GitHub/Proyectos/Flet_Figuras/po_model.py:15-17 | the colours repeat after as many laps as colours |
| Figures.ColorsDiffer | GitHub/Proyectos/Flet_Figuras/po_model.py:15-17 | with distinct colours, figures at different positions differ in colour |
| Figures.Next | GitHub/Proyectos/Flet_Figuras/po_model.py:47-53 | the next position, with one more lap exactly when it wraps to the head |
| Figures.Prev | GitHub/Proyectos/Flet_Figuras/po_model.py:55-61 | the previous position, with one lap less exactly when leaving the head |
| Figures.NextPrevSteps | GitHub/Proyectos/Flet_Figuras/po_model.py:47-61 | `next_shape` is one step forward and `prev_shape` one step back |
| Figures.PrevUndoesNext | GitHub/Proyectos/Flet_Figuras/po_model.py:47-61 | `next_shape` then `prev_shape` restores position and loop count, and the other way round |
| Figures.Advance | GitHub/Proyectos/Flet_Figuras/po_model.py:47-53 | `k` calls of `next_shape` |
| Figures.AdvanceFromStart | GitHub/Proyectos/Flet_Figuras/po_model.py:47-53 | after `k` calls from the start the position is `k mod n` and the loop count is `k div n` |
| Figures.PoModel.constructor | GitHub/Proyectos/Flet_Figuras/po_model.py:21-28 | circle, triangle, square in red, green, blue; loop count 0; the cursor on the head |
| Figures.PoModel.InitializeFigures | GitHub/Proyectos/Flet_Figuras/po_model.py:30-34 | one new figure per shape, in the colour at its index, inserted in order |
| Figures.PoModel.UpdateColors | GitHub/Proyectos/Flet_Figuras/po_model.py:36-45 | every figure `i` gets `colors[(i + loop_count) mod 3]`; the shapes, the ring and the cursor stay |
| Figures.PoModel.NextShape | GitHub/Proyectos/Flet_Figuras/po_model.py:47-53 | the cursor moves as `Next` says and every figure keeps its colour for the loop count |
| Figures.PoModel.PrevShape | GitHub/Proyectos/Flet_Figuras/po_model.py:55-61 | the cursor moves as `Prev` says and the figures are repainted for the new loop count |
| Counter.CounterModel.constructor | GitHub/Proyectos/flet_app/model_flet.py:6-7 | the count starts at 0 |
| Counter.CounterModel.GetCount | GitHub/Proyectos/flet_app/model_flet.py:9-11 | the count, never negative, equal to the number of increments |
| Counter.CounterModel.Increment | GitHub/Proyectos/flet_app/model_flet.py:13-15 | the count goes up by exactly one |

## Left out

- The Flet views, controllers and entry points. They only read text fields, call the model and redraw. `Proy_Poli/pol_controller.py` pushes results on the history and keeps preferences; it is not part of this model.
- Floating point. Coefficients are integers and evaluator values are exact reals. `round(…, 2)`, `is_integer()` and decimal literals are therefore not modelled, and the parsers' grammars have no decimal point. `/` in the Exa2 evaluators is exact division.
- Python's `re` engine. Each pattern is modelled as an explicit scanner of the language it accepts. Character classes are ASCII (`isdigit`, `isalpha`, `isalnum`, `isspace`).
- Negative degrees. Degrees are `nat` everywhere. `int()` of a signed exponent is outside the modelled grammar, and `add_term` in the operation queue rejects a negative degree.
- Dictionary and set iteration order in `DynamicPolynomial.__add__`/`__sub__`. The loops pick degrees in any order, and the contracts hold for every order.
- `PolynomialModel.get_queue_list` of `Proy_Poli`. It only formats the queue for display (`capitalize`, tuple text).
- The `print` in `clear_history`.
- `get_operators_stack_as_list`, which returns the `operator_history` field itself. The field is modelled; the getter is not.
- `set_polynomials`, `add`, `subtract` and `get_result_str` of the dictionary calculator's `PolynomialModel`. Each is one assignment or call of the `DynamicPolynomial` operations modelled above.
- Argument conversion in the operation queue of `Proy_Poli`. `add_term`, `delete_term` and `search_term` call `float()`/`int()` on their arguments (`Proy_Poli/pol_model.py` lines 31-32, 180 and 207). The controller enqueues the raw text fields. In the model, `Operation.args` already holds integers. So the `ValueError` that `process_queue` raises is not modelled: it raises after dequeuing an operation whose argument does not convert. A wrong number of arguments is modelled (`Calculator.ProcessNext` returns `Err`).
- Number forms beyond ASCII digit runs. Python's `float()` and `int()` also accept exponents (`+1e5`), underscores (`+1_0`), `inf`/`nan` and surrounding whitespace (the tab in `int("\t3")`). `PolyText.ParsePoly` reads a term's coefficient and exponent only as an optional sign followed by ASCII digits, and returns `None` for any other form, where `Proy_Poli` would accept it. `TermScanner.ScanTerms` takes only what the regular expression matches, so the other forms never reach `float()` there. Its `\d` is read as an ASCII digit, where Python also matches other Unicode digits.
- LinkedPoly.LinkedPolynomial.Evaluate takes an integer `x`. The `polinomio_flet` controller passes `float(x_str)`, so evaluation at a non-integer point is not modelled (see Floating point above).
- InfixModel.Shunting: the two shunting loops of `infix_to_postfix` (pops on `>=`) and `infix_to_prefix` (pops on `>`) are one method with a `strict` flag.
- Figures.GetColor requires a non-empty palette. With an empty one, Python raises `ZeroDivisionError`; the application always has three colours.
- Figures.PoModel.InitializeFigures is a static method over the ring, shapes and colours rather than an instance method, because the constructor builds the ring before it assigns the fields. `figs` and `position` are ghost bookkeeping: the figures on the ring and the index of the current node.
- Calculator.PolynomialModel: the methods state that every component stays valid and separate, but not that new footprints are fresh. The history stores the terms of each snapshot rather than `Polynomial` objects.
- LinkedPoly.Add: the result's footprint is stated to be disjoint from both operands' rather than fresh.
- Counter.CounterModel: the ghost field `increments` counts the calls of `Increment` so that the count can be related to it.

## Findings

| source | as written | input that shows it | evidently intended | confidence | as-written member | corrected member |
|---|---|---|---|---|---|---|
| GitHub/Proyectos/polinomio_flet/model/linked_polynomial.py:15-17 | `insert_term` merges only with the node where the scan stops. The scan stops before the first exponent not above `exp`, so it merges only with the head. An equal exponent further down gets a second node. | `x^2 + x`, then `insert_term(1, 1)`: the list becomes `x^2 + x + x` instead of `x^2 + 2x` | one node per exponent, coefficients added (as `add_term` of the calculator does); the model uses `PolyTerms.Insert`, which keeps one term per exponent (`PolyTerms.InsertCanonical`) and adds `c` to the coefficient of `d` (`PolyTerms.InsertCoef`) | not executed | LinkedPoly.QInsertDuplicate | PolyTerms.InsertCanonical |
