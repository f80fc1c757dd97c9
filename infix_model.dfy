/** The infix converter object (Exa2/pol_model.py, InfixToPrefixModel): a
    stack of the terms met, a stack of operators for the shunting-yard
    pass, the operator history of the last tokenized expression and the
    last result. Both conversions tokenize, run the pass on the operator
    stack, join the output with single spaces and evaluate it. The two
    passes of the source differ only in the comparison that pops an
    operator (>= for postfix, > for prefix), so one method runs both,
    told which by `strict`. */
module InfixModel {
  import opened Text
  import opened Wrappers
  import opened DataStructures
  import opened InfixTokens
  import opened InfixConvert
  import opened InfixEval

  /** out.append(ops.pop()) on a stack that is not empty. */
  method PopOnto(ops: Stack<string>, out: seq<string>) returns (out': seq<string>)
    requires ops.Valid() && ops.Contents != []
    modifies ops
    ensures ops.Valid() && ops.Repr == old(ops.Repr)
    ensures out' == out + [old(ops.Contents)[0]] && ops.Contents == old(ops.Contents)[1..]
  {
    var popped := ops.Pop();
    out' := out + [popped.value];
  }

  lemma Extend<T>(out: seq<T>, s: seq<T>, k: nat)
    requires k < |s|
    ensures (out + s[..k]) + [s[k]] == out + s[..k + 1]
  {
    assert s[..k + 1] == s[..k] + [s[k]];
  }

  /** The pop loop before pushing an operator: pops to the output while
      the top of the stack outranks it. */
  method PopWhile(ops: Stack<string>, out: seq<string>, p: nat, strict: bool) returns (out': seq<string>)
    requires ops.Valid()
    modifies ops
    ensures ops.Valid() && ops.Repr == old(ops.Repr)
    ensures var n := PopCount(old(ops.Contents), p, strict);
      out' == out + old(ops.Contents)[..n] && ops.Contents == old(ops.Contents)[n..]
  {
    ghost var start := ops.Contents;
    ghost var k := 0;
    out' := out;
    var more := Outranked(ops, p, strict);
    while more
      invariant ops.Valid() && ops.Repr == old(ops.Repr)
      invariant 0 <= k <= |start| && ops.Contents == start[k..]
      invariant out' == out + start[..k]
      invariant k + PopCount(start[k..], p, strict) == PopCount(start, p, strict)
      invariant more <==> k < |start| && PopsBefore(start[k], p, strict)
      decreases |start| - k
    {
      PopCountStep(start, k, p, strict);
      out' := PopOnto(ops, out');
      Extend(out, start, k);
      k := k + 1;
      more := Outranked(ops, p, strict);
    }
    PopCountStop(start, k, p, strict);
  }

  /** An operator that outranks the incoming one is popped and counted. */
  lemma PopCountStep(s: seq<string>, k: nat, p: nat, strict: bool)
    requires k < |s| && PopsBefore(s[k], p, strict)
    ensures PopCount(s[k..], p, strict) == 1 + PopCount(s[k + 1..], p, strict)
    ensures s[k..][0] == s[k] && s[k..][1..] == s[k + 1..]
  {
    assert s[k..][0] == s[k] && s[k..][1..] == s[k + 1..];
  }

  /** At the end of the stack, or at an operator that does not outrank the
      incoming one, nothing more is popped. */
  lemma PopCountStop(s: seq<string>, k: nat, p: nat, strict: bool)
    requires k <= |s| && (k == |s| || !PopsBefore(s[k], p, strict))
    ensures PopCount(s[k..], p, strict) == 0
  {
    if k < |s| {
      assert s[k..][0] == s[k];
    }
  }

  /** The loop condition: the stack is not empty and its top outranks the
      incoming operator. */
  method Outranked(ops: Stack<string>, p: nat, strict: bool) returns (more: bool)
    requires ops.Valid()
    ensures more <==> ops.Contents != [] && PopsBefore(ops.Contents[0], p, strict)
  {
    var empty := ops.IsEmpty();
    if empty {
      return false;
    }
    var top := ops.Peek();
    more := PopsBefore(top.value, p, strict);
  }

  /** The pop loop of a ')': pops to the output until a '(' is on top. */
  method PopToOpen(ops: Stack<string>, out: seq<string>) returns (out': seq<string>)
    requires ops.Valid()
    modifies ops
    ensures ops.Valid() && ops.Repr == old(ops.Repr)
    ensures var n := OpenIndex(old(ops.Contents));
      out' == out + old(ops.Contents)[..n] && ops.Contents == old(ops.Contents)[n..]
  {
    ghost var start := ops.Contents;
    ghost var k := 0;
    out' := out;
    var top := ops.Peek();
    while top.Some? && top.value != "("
      invariant ops.Valid() && ops.Repr == old(ops.Repr)
      invariant 0 <= k <= |start| && ops.Contents == start[k..]
      invariant out' == out + start[..k]
      invariant k + OpenIndex(start[k..]) == OpenIndex(start)
      invariant top == if ops.Contents == [] then None else Some(ops.Contents[0])
      decreases |start| - k
    {
      OpenIndexStep(start, k);
      out' := PopOnto(ops, out');
      Extend(out, start, k);
      k := k + 1;
      top := ops.Peek();
    }
    OpenIndexStop(start, k);
  }

  lemma OpenIndexStep(s: seq<string>, k: nat)
    requires k < |s| && s[k] != "("
    ensures OpenIndex(s[k..]) == 1 + OpenIndex(s[k + 1..])
    ensures s[k..][0] == s[k] && s[k..][1..] == s[k + 1..]
  {
    assert s[k..][0] == s[k] && s[k..][1..] == s[k + 1..];
  }

  lemma OpenIndexStop(s: seq<string>, k: nat)
    requires k <= |s| && (k == |s| || s[k] == "(")
    ensures OpenIndex(s[k..]) == 0
  {
  }

  /** The loop after the pass: every operator left, from the top down. */
  method Flush(ops: Stack<string>, out: seq<string>) returns (out': seq<string>)
    requires ops.Valid()
    modifies ops
    ensures ops.Valid() && ops.Repr == old(ops.Repr)
    ensures out' == out + old(ops.Contents) && ops.Contents == []
  {
    ghost var start := ops.Contents;
    ghost var k := 0;
    out' := out;
    var empty := ops.IsEmpty();
    while !empty
      invariant ops.Valid() && ops.Repr == old(ops.Repr)
      invariant 0 <= k <= |start| && ops.Contents == start[k..]
      invariant out' == out + start[..k]
      invariant empty <==> k == |start|
      decreases |start| - k
    {
      assert start[k..][0] == start[k] && start[k..][1..] == start[k + 1..];
      out' := PopOnto(ops, out');
      Extend(out, start, k);
      k := k + 1;
      empty := ops.IsEmpty();
    }
    assert start[..k] == start;
  }

  /** One token of the pass, on the two stacks: an operand goes to the
      output and onto the terms stack; '(' is pushed; ')' pops to the
      matching '(' and drops it; an operator pops what outranks it and is
      pushed. */
  method ShuntToken(terms: Stack<string>, ops: Stack<string>, out: seq<string>, token: string, strict: bool)
    returns (out': seq<string>)
    requires terms.Valid() && ops.Valid() && terms.Repr !! ops.Repr
    modifies terms, ops
    ensures terms.Valid() && ops.Valid() && terms.Repr !! ops.Repr
    ensures fresh(terms.Repr - old(terms.Repr)) && fresh(ops.Repr - old(ops.Repr))
    ensures Shunt(out', ops.Contents) == Step(Shunt(out, old(ops.Contents)), token, strict)
    ensures terms.Contents == (if IsOperand(token) then [token] else []) + old(terms.Contents)
  {
    if IsOperand(token) {
      out' := out + [token];
      terms.Push(token);
    } else if token == "(" {
      out' := out;
      ops.Push(token);
    } else if token == ")" {
      out' := CloseParenOn(ops, out);
    } else {
      out' := PushOperatorOn(ops, out, token, strict);
    }
  }

  /** A ')': the pop loop, then the '(' itself is dropped if the stack is
      not empty. */
  method CloseParenOn(ops: Stack<string>, out: seq<string>) returns (out': seq<string>)
    requires ops.Valid()
    modifies ops
    ensures ops.Valid() && ops.Repr == old(ops.Repr)
    ensures Shunt(out', ops.Contents) == CloseParen(Shunt(out, old(ops.Contents)))
  {
    out' := PopToOpen(ops, out);
    var empty := ops.IsEmpty();
    if !empty {
      var open := ops.Pop();
    }
  }

  /** An operator: the pop loop, then the operator is pushed. */
  method PushOperatorOn(ops: Stack<string>, out: seq<string>, token: string, strict: bool) returns (out': seq<string>)
    requires ops.Valid()
    modifies ops
    ensures ops.Valid() && fresh(ops.Repr - old(ops.Repr))
    ensures Shunt(out', ops.Contents) == PushOperator(Shunt(out, old(ops.Contents)), token, strict)
  {
    out' := PopWhile(ops, out, Precedence(token), strict);
    ops.Push(token);
  }

  /** s.push(t) for a term makes it the new top of the stack of terms. */
  lemma TermsSnoc(tokens: seq<string>, i: nat)
    requires i < |tokens|
    ensures Reverse(Operands(tokens[..i + 1])) == (if IsOperand(tokens[i]) then [tokens[i]] else []) + Reverse(Operands(tokens[..i]))
  {
    var ts, t := tokens[..i], tokens[i];
    assert tokens[..i + 1] == ts + [t];
    OperandsAppend(ts, [t]);
    assert Operands([t]) == if IsOperand(t) then [t] else [] by {
      assert [t][1..] == [];
    }
    ReverseAppend(Operands(ts), Operands([t]));
  }

  /** The operands of the prefix pass's input, pushed one by one, leave the
      first operand of the expression on top. */
  lemma PrefixTermsOrder(tokens: seq<string>)
    ensures Reverse(Operands(Swapped(Reverse(tokens)))) == Operands(tokens)
  {
    OperandsSwapped(Reverse(tokens));
    OperandsReverse(tokens);
    ReverseReverse(Operands(tokens));
  }

  /** The for loop of infix_to_prefix that exchanges '(' and ')'. */
  method MirrorTokens(tokens: seq<string>) returns (processed: seq<string>)
    ensures processed == Swapped(tokens)
  {
    processed := [];
    for i := 0 to |tokens|
      invariant |processed| == i
      invariant forall j :: 0 <= j < i ==> processed[j] == Mirror(tokens[j])
    {
      if tokens[i] == "(" {
        processed := processed + [")"];
      } else if tokens[i] == ")" {
        processed := processed + ["("];
      } else {
        processed := processed + [tokens[i]];
      }
    }
  }

  /** The pass and the final flush on the two stacks: the output is the
      converted token list, the operator stack ends empty and the terms
      stack holds the operands, the last one on top. */
  method Shunting(terms: Stack<string>, ops: Stack<string>, tokens: seq<string>, strict: bool) returns (out: seq<string>)
    requires terms.Valid() && ops.Valid() && terms.Repr !! ops.Repr
    requires terms.Contents == [] && ops.Contents == []
    modifies terms, ops
    ensures terms.Valid() && ops.Valid() && terms.Repr !! ops.Repr
    ensures fresh(terms.Repr - old(terms.Repr)) && fresh(ops.Repr - old(ops.Repr))
    ensures out == Converted(tokens, strict) && ops.Contents == []
    ensures terms.Contents == Reverse(Operands(tokens))
  {
    out := [];
    for i := 0 to |tokens|
      invariant terms.Valid() && ops.Valid() && terms.Repr !! ops.Repr
      invariant fresh(terms.Repr - old(terms.Repr)) && fresh(ops.Repr - old(ops.Repr))
      invariant Run(Shunt(out, ops.Contents), tokens[i..], strict) == Run(Shunt([], []), tokens, strict)
      invariant terms.Contents == Reverse(Operands(tokens[..i]))
    {
      RunStep(Shunt(out, ops.Contents), tokens, i, strict);
      TermsSnoc(tokens, i);
      out := ShuntToken(terms, ops, out, tokens[i], strict);
    }
    assert tokens[|tokens|..] == [];
    assert tokens[..|tokens|] == tokens;
    out := Flush(ops, out);
  }

  lemma RunStep(st: Shunt, tokens: seq<string>, i: nat, strict: bool)
    requires i < |tokens|
    ensures Run(st, tokens[i..], strict) == Run(Step(st, tokens[i], strict), tokens[i + 1..], strict)
  {
    assert tokens[i..][0] == tokens[i] && tokens[i..][1..] == tokens[i + 1..];
  }

  /** The body of infix_to_postfix on the two fresh stacks. */
  method PostfixOn(terms: Stack<string>, ops: Stack<string>, expression: string)
    returns (history: seq<char>, res: string, evaluation: Outcome)
    requires terms.Valid() && ops.Valid() && terms.Repr !! ops.Repr
    requires terms.Contents == [] && ops.Contents == []
    modifies terms, ops
    ensures terms.Valid() && ops.Valid() && terms.Repr !! ops.Repr
    ensures fresh(terms.Repr - old(terms.Repr)) && fresh(ops.Repr - old(ops.Repr))
    ensures history == Scan(expression).history
    ensures res == JoinWith(PostfixTokens(Scan(expression).tokens), " ")
    ensures evaluation == PostfixValue(res)
    ensures ops.Contents == [] && terms.Contents == Reverse(Operands(Scan(expression).tokens))
  {
    var tokens;
    tokens, history := Tokenize(expression);
    var postfix := Shunting(terms, ops, tokens, false);
    res := JoinWith(postfix, " ");
    evaluation := EvaluatePostfix(res);
  }

  /** The body of infix_to_prefix on the two fresh stacks. */
  method PrefixOn(terms: Stack<string>, ops: Stack<string>, expression: string)
    returns (history: seq<char>, res: string, evaluation: Outcome)
    requires terms.Valid() && ops.Valid() && terms.Repr !! ops.Repr
    requires terms.Contents == [] && ops.Contents == []
    modifies terms, ops
    ensures terms.Valid() && ops.Valid() && terms.Repr !! ops.Repr
    ensures fresh(terms.Repr - old(terms.Repr)) && fresh(ops.Repr - old(ops.Repr))
    ensures history == Scan(expression).history
    ensures res == JoinWith(PrefixTokens(Scan(expression).tokens), " ")
    ensures evaluation == PrefixValue(res)
    ensures ops.Contents == [] && terms.Contents == Operands(Scan(expression).tokens)
  {
    var tokens;
    tokens, history := Tokenize(expression);
    var processed := MirrorTokens(Reverse(tokens));
    var prefix := Shunting(terms, ops, processed, true);
    PrefixTermsOrder(tokens);
    res := JoinWith(Reverse(prefix), " ");
    evaluation := EvaluatePrefix(res);
  }

  // ---------------------------------------------------------------------
  // From the characters of an expression to the tokens of the pass

  /** The characters the converter's own keyboard produces: whitespace,
      letters, digits, parentheses and the five operators. */
  predicate Allowed(c: char)
  {
    IsSpace(c) || IsAlnum(c) || c == '(' || c == ')' || IsOperatorChar(c)
  }

  /** The token the tokenizer cuts at i is an operand, a parenthesis or a
      ranked operator. */
  lemma TokenWellFormed(e: string, i: nat)
    requires i < |e| && !IsSpace(e[i]) && Allowed(e[i])
    ensures var t := e[i..TokenEnd(e, i)];
      IsOperand(t) || t == "(" || t == ")" || Precedence(t) >= 1
  {
    var k := TokenEnd(e, i);
    var t := e[i..k];
    if IsDigit(e[i]) || SignAt(e, i) {
      if IsDigit(e[i]) {
        assert IsAlnumToken(t);
      } else if k == i + 1 {
        assert |t| == 1 && t[0] == '-';
      } else {
        assert t[1..] == e[i + 1..k];
        assert IsNumeral(t[1..]);
      }
    } else if IsLetter(e[i]) {
      assert IsAlnumToken(t);
    } else {
      assert |t| == 1 && t[0] == e[i];
      if e[i] == '(' {
        assert t == "(";
      } else if e[i] == ')' {
        assert t == ")";
      }
    }
  }

  /** On an expression of allowed characters every token is one the pass
      knows how to place. */
  lemma {:induction false} ScanWellFormed(e: string, i: nat)
    requires i <= |e| && forall j :: i <= j < |e| ==> Allowed(e[j])
    ensures WellFormed(ScanFrom(e, i).tokens)
    decreases |e| - i
  {
    if i < |e| {
      if IsSpace(e[i]) {
        ScanWellFormed(e, i + 1);
      } else {
        var k := TokenEnd(e, i);
        ScanWellFormed(e, k);
        TokenWellFormed(e, i);
        var ts := ScanFrom(e, i).tokens;
        assert ts == [e[i..k]] + ScanFrom(e, k).tokens;
        forall j | 0 <= j < |ts|
          ensures IsOperand(ts[j]) || ts[j] == "(" || ts[j] == ")" || Precedence(ts[j]) >= 1
        {
          if j > 0 {
            assert ts[j] == ScanFrom(e, k).tokens[j - 1];
          }
        }
      }
    }
  }

  /** infix_to_postfix on an expression of allowed characters whose
      parentheses balance: every token but the parentheses comes out
      exactly once. */
  lemma PostfixKeepsTokens(expression: string)
    requires forall j :: 0 <= j < |expression| ==> Allowed(expression[j])
    requires Balanced(Scan(expression).tokens)
    ensures multiset(PostfixTokens(Scan(expression).tokens)) == WithoutParens(multiset(Scan(expression).tokens))
  {
    ScanWellFormed(expression, 0);
    ConvertedPermutation(Scan(expression).tokens, false);
  }

  /** The same for infix_to_prefix. */
  lemma PrefixKeepsTokens(expression: string)
    requires forall j :: 0 <= j < |expression| ==> Allowed(expression[j])
    requires Balanced(Scan(expression).tokens)
    ensures multiset(PrefixTokens(Scan(expression).tokens)) == WithoutParens(multiset(Scan(expression).tokens))
  {
    ScanWellFormed(expression, 0);
    PrefixPermutation(Scan(expression).tokens);
  }

  class InfixToPrefixModel {
    var termsStack: Stack<string>
    var operatorsStack: Stack<string>
    var operatorHistory: seq<char>
    var result: string

    ghost predicate Valid()
      reads this, termsStack, termsStack.Repr, operatorsStack, operatorsStack.Repr
    {
      termsStack.Valid() && operatorsStack.Valid() && termsStack.Repr !! operatorsStack.Repr
    }

    constructor ()
      ensures Valid()
      ensures termsStack.Contents == [] && operatorsStack.Contents == []
      ensures operatorHistory == [] && result == ""
    {
      termsStack := new Stack<string>();
      operatorsStack := new Stack<string>();
      operatorHistory := [];
      result := "";
    }

    /** infix_to_postfix: the postfix form of the expression, joined with
        single spaces, and its evaluation. */
    method InfixToPostfix(expression: string) returns (res: string, evaluation: Outcome)
      modifies this
      ensures Valid()
      ensures operatorHistory == Scan(expression).history
      ensures res == result && res == JoinWith(PostfixTokens(Scan(expression).tokens), " ")
      ensures evaluation == PostfixValue(res)
      ensures operatorsStack.Contents == [] && termsStack.Contents == Reverse(Operands(Scan(expression).tokens))
    {
      var terms := new Stack<string>();
      var ops := new Stack<string>();
      termsStack, operatorsStack := terms, ops;
      var history;
      history, res, evaluation := PostfixOn(terms, ops, expression);
      operatorHistory, result := history, res;
    }

    /** infix_to_prefix: the prefix form of the expression, joined with
        single spaces, and its evaluation; the terms stack ends with the
        first operand on top. */
    method InfixToPrefix(expression: string) returns (res: string, evaluation: Outcome)
      modifies this
      ensures Valid()
      ensures operatorHistory == Scan(expression).history
      ensures res == result && res == JoinWith(PrefixTokens(Scan(expression).tokens), " ")
      ensures evaluation == PrefixValue(res)
      ensures operatorsStack.Contents == [] && termsStack.Contents == Operands(Scan(expression).tokens)
    {
      var terms := new Stack<string>();
      var ops := new Stack<string>();
      termsStack, operatorsStack := terms, ops;
      var history;
      history, res, evaluation := PrefixOn(terms, ops, expression);
      operatorHistory, result := history, res;
    }

    /** get_terms_stack_as_list: the terms from the top down, by walking the
        linked nodes. */
    method TermsList() returns (items: seq<string>)
      requires Valid()
      ensures items == termsStack.Contents
    {
      items := [];
      var current := termsStack.head;
      while current != null
        invariant |items| <= |termsStack.nodes|
        invariant items == termsStack.Contents[..|items|]
        invariant current == if |items| < |termsStack.nodes| then termsStack.nodes[|items|] else null
        decreases |termsStack.nodes| - |items|
      {
        items := items + [current.value];
        current := current.next;
      }
    }
  }
}
