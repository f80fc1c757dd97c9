/** The tokenizer of the infix converter (Exa2/pol_model.py, _tokenize):
    whitespace is skipped, a digit run (or a '-' in sign position followed
    by a digit run) is one token, a letter followed by letters and digits is
    one token, and every other character is a token of its own; operator
    characters that are not signs are also recorded, in order, in the
    operator history. Character classes are ASCII. */
module InfixTokens {
  import opened Text

  // The operator characters: + - * / ^
  predicate IsOperatorChar(c: char)
  {
    c == '+' || c == '-' || c == '*' || c == '/' || c == '^'
  }

  // A '-' is a sign when it starts the expression or directly follows an
  // opening parenthesis or an operator character.
  predicate SignAt(e: string, i: nat)
    requires i < |e|
  {
    e[i] == '-' && (i == 0 || e[i - 1] == '(' || IsOperatorChar(e[i - 1]))
  }

  /** The end of the run of digits starting at j. */
  function DigitRun(e: string, j: nat): (k: nat)
    requires j <= |e|
    ensures j <= k <= |e|
    ensures forall m :: j <= m < k ==> IsDigit(e[m])
    ensures k == |e| || !IsDigit(e[k])
    decreases |e| - j
  {
    if j < |e| && IsDigit(e[j]) then DigitRun(e, j + 1) else j
  }

  /** The end of the run of letters and digits starting at j. */
  function AlnumRun(e: string, j: nat): (k: nat)
    requires j <= |e|
    ensures j <= k <= |e|
    ensures forall m :: j <= m < k ==> IsAlnum(e[m])
    ensures k == |e| || !IsAlnum(e[k])
    decreases |e| - j
  {
    if j < |e| && IsAlnum(e[j]) then AlnumRun(e, j + 1) else j
  }

  /** What _tokenize gives: the tokens and the operator history. */
  datatype Scanned = Scanned(tokens: seq<string>, history: seq<char>)

  /** Where the token starting at i ends (i is not whitespace). */
  function TokenEnd(e: string, i: nat): (k: nat)
    requires i < |e|
    ensures i < k <= |e|
  {
    if IsDigit(e[i]) || SignAt(e, i) then DigitRun(e, i + 1)
    else if IsLetter(e[i]) then AlnumRun(e, i + 1)
    else i + 1
  }

  /** The token starting at i is an operator to record. */
  predicate Recorded(e: string, i: nat)
    requires i < |e|
  {
    !IsSpace(e[i]) && !IsDigit(e[i]) && !SignAt(e, i) && !IsLetter(e[i]) && IsOperatorChar(e[i])
  }

  /** _tokenize from position i on. */
  function ScanFrom(e: string, i: nat): Scanned
    requires i <= |e|
    decreases |e| - i
  {
    if i == |e| then Scanned([], [])
    else if IsSpace(e[i]) then ScanFrom(e, i + 1)
    else
      var k := TokenEnd(e, i);
      var rest := ScanFrom(e, k);
      Scanned([e[i..k]] + rest.tokens, (if Recorded(e, i) then [e[i]] else []) + rest.history)
  }

  function Scan(e: string): Scanned
  {
    ScanFrom(e, 0)
  }

  /** The loop of _tokenize: tokens and operator history, position by
      position. */
  method Tokenize(expression: string) returns (tokens: seq<string>, history: seq<char>)
    ensures tokens == Scan(expression).tokens && history == Scan(expression).history
  {
    tokens := [];
    history := [];
    var i := 0;
    while i < |expression|
      invariant i <= |expression|
      invariant tokens + ScanFrom(expression, i).tokens == Scan(expression).tokens
      invariant history + ScanFrom(expression, i).history == Scan(expression).history
      decreases |expression| - i
    {
      i, tokens, history := TokenizeStep(expression, i, tokens, history);
    }
  }

  /** One round of the loop of _tokenize: a whitespace character is
      skipped, anything else adds its token (and maybe its operator). */
  method TokenizeStep(expression: string, i: nat, tokens: seq<string>, history: seq<char>)
    returns (i': nat, tokens': seq<string>, history': seq<char>)
    requires i < |expression|
    ensures i < i' <= |expression|
    ensures tokens' + ScanFrom(expression, i').tokens == tokens + ScanFrom(expression, i).tokens
    ensures history' + ScanFrom(expression, i').history == history + ScanFrom(expression, i).history
  {
    if IsSpace(expression[i]) {
      return i + 1, tokens, history;
    }
    var recorded;
    i', recorded := ReadToken(expression, i);
    ghost var rest := ScanFrom(expression, i');
    Associative(tokens, [expression[i..i']], rest.tokens);
    tokens' := tokens + [expression[i..i']];
    history' := history;
    if recorded {
      Associative(history, [expression[i]], rest.history);
      history' := history + [expression[i]];
    }
  }

  /** One round of the loop of _tokenize at a character that is not
      whitespace: where its token ends and whether it is recorded. */
  method ReadToken(expression: string, start: nat) returns (i: nat, recorded: bool)
    requires start < |expression| && !IsSpace(expression[start])
    ensures i == TokenEnd(expression, start) && recorded == Recorded(expression, start)
  {
    var c := expression[start];
    i := start;
    recorded := false;
    if IsDigit(c) || (c == '-' && (i == 0 || expression[i - 1] == '(' || IsOperatorChar(expression[i - 1]))) {
      i := i + 1;
      while i < |expression| && IsDigit(expression[i])
        invariant start < i <= |expression|
        invariant DigitRun(expression, i) == DigitRun(expression, start + 1)
        decreases |expression| - i
      {
        i := i + 1;
      }
    } else if IsLetter(c) {
      i := i + 1;
      while i < |expression| && IsAlnum(expression[i])
        invariant start < i <= |expression|
        invariant AlnumRun(expression, i) == AlnumRun(expression, start + 1)
        decreases |expression| - i
      {
        i := i + 1;
      }
    } else {
      recorded := IsOperatorChar(c);
      i := i + 1;
    }
  }

  // ---------------------------------------------------------------------
  // What the tokens are

  /** The string without its whitespace. */
  function WithoutSpaces(s: string): (r: string)
    ensures |r| <= |s|
  {
    if s == [] then [] else (if IsSpace(s[0]) then [] else [s[0]]) + WithoutSpaces(s[1..])
  }

  lemma {:induction false} WithoutSpacesAppend(a: string, b: string)
    ensures WithoutSpaces(a + b) == WithoutSpaces(a) + WithoutSpaces(b)
  {
    if a != [] {
      var head: string := if IsSpace(a[0]) then [] else [a[0]];
      assert (a + b)[0] == a[0];
      assert (a + b)[1..] == a[1..] + b;
      WithoutSpacesAppend(a[1..], b);
      assert WithoutSpaces(a + b) == head + WithoutSpaces(a[1..] + b);
      assert WithoutSpaces(a) == head + WithoutSpaces(a[1..]);
    } else {
      assert a + b == b;
    }
  }

  lemma {:induction false} WithoutSpacesNone(s: string)
    requires forall m :: 0 <= m < |s| ==> !IsSpace(s[m])
    ensures WithoutSpaces(s) == s
  {
    if s != [] {
      WithoutSpacesNone(s[1..]);
    }
  }

  /** A token is never empty and holds no whitespace. */
  lemma TokenIsWord(e: string, i: nat)
    requires i < |e| && !IsSpace(e[i])
    ensures IsWord(e[i..TokenEnd(e, i)])
  {
  }

  /** Every token is a word, so " ".join of the tokens splits back into
      them. */
  lemma {:induction false} TokensAreWords(e: string, i: nat)
    requires i <= |e|
    ensures forall j :: 0 <= j < |ScanFrom(e, i).tokens| ==> IsWord(ScanFrom(e, i).tokens[j])
    decreases |e| - i
  {
    if i < |e| {
      if IsSpace(e[i]) {
        TokensAreWords(e, i + 1);
      } else {
        TokenIsWord(e, i);
        TokensAreWords(e, TokenEnd(e, i));
      }
    }
  }

  /** Nothing but whitespace is lost: the tokens joined together are the
      expression with its whitespace removed. */
  lemma {:induction false} TokensJoined(e: string, i: nat)
    requires i <= |e|
    ensures Concat(ScanFrom(e, i).tokens) == WithoutSpaces(e[i..])
    decreases |e| - i
  {
    if i < |e| {
      assert e[i..] == [e[i]] + e[i + 1..];
      if IsSpace(e[i]) {
        TokensJoined(e, i + 1);
      } else {
        var k := TokenEnd(e, i);
        TokensJoined(e, k);
        assert e[i..] == e[i..k] + e[k..];
        WithoutSpacesAppend(e[i..k], e[k..]);
        TokenIsWord(e, i);
        WithoutSpacesNone(e[i..k]);
      }
    }
  }

  /** The operator characters of e from position i on that are not signs:
      a reference definition of the operator history, position by
      position. */
  function OperatorsFrom(e: string, i: nat): seq<char>
    requires i <= |e|
    decreases |e| - i
  {
    if i == |e| then []
    else (if IsOperatorChar(e[i]) && !SignAt(e, i) then [e[i]] else []) + OperatorsFrom(e, i + 1)
  }

  /** Inside a token after its first character there is no operator
      character. */
  lemma {:induction false} NoOperatorsInside(e: string, j: nat, k: nat)
    requires j <= k <= |e|
    requires forall m :: j <= m < k ==> IsAlnum(e[m])
    ensures OperatorsFrom(e, j) == OperatorsFrom(e, k)
    decreases k - j
  {
    if j < k {
      NoOperatorsInside(e, j + 1, k);
    }
  }

  /** The operator history is exactly the operator characters of the
      expression that are not signs, in order. */
  lemma {:induction false} HistoryIsOperators(e: string, i: nat)
    requires i <= |e|
    ensures ScanFrom(e, i).history == OperatorsFrom(e, i)
    decreases |e| - i
  {
    if i < |e| {
      if IsSpace(e[i]) {
        HistoryIsOperators(e, i + 1);
      } else {
        var k := TokenEnd(e, i);
        HistoryIsOperators(e, k);
        NoOperatorsInside(e, i + 1, k);
      }
    }
  }

  /** A numeral is a single token. */
  lemma NumeralIsOneToken(s: string)
    requires IsNumeral(s)
    ensures Scan(s).tokens == [s] && Scan(s).history == []
  {
    DigitRunToEnd(s, 1);
    assert TokenEnd(s, 0) == |s| && !Recorded(s, 0);
    assert ScanFrom(s, |s|) == Scanned([], []);
    assert s[0..|s|] == s;
  }

  lemma {:induction false} DigitRunToEnd(s: string, j: nat)
    requires j <= |s| && AllDigits(s)
    ensures DigitRun(s, j) == |s|
    decreases |s| - j
  {
    if j < |s| {
      DigitRunToEnd(s, j + 1);
    }
  }
}
