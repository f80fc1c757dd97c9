/** The evaluators of the infix converter (Exa2/pol_model.py,
    evaluate_postfix and evaluate_prefix): the expression is split on
    whitespace, numerals are pushed on a stack, and an operator pops two
    values and pushes the result. A postfix expression is read left to
    right and the first value popped is the right operand; a prefix one is
    read right to left and the first value popped is the left operand.

    Values are exact reals: '+', '-' and '*' on the integers the numerals
    denote stay integers, and '/' is exact division where Python divides
    in floating point. */
module InfixEval {
  import opened Text
  import opened Wrappers
  import opened DataStructures
  import opened InfixConvert

  const InvalidExpression: string := "Error: Expresión inválida"
  const DivisionByZero: string := "Error: División por cero"

  datatype Outcome = Value(v: real) | Error(message: string)

  /** token.isdigit(), or a '-' followed by digits. */
  predicate IsNumberToken(t: string)
  {
    IsNumeral(t) || (|t| > 0 && t[0] == '-' && IsNumeral(t[1..]))
  }

  /** int(token) */
  function NumberValue(t: string): real
    requires IsNumberToken(t)
  {
    if IsNumeral(t) then DigitsValue(t) as real else - (DigitsValue(t[1..]) as real)
  }

  /** The operator branch of either loop on its two operands: Some value
      to push, None for an operator without a branch (it consumes its
      operands and pushes nothing), or the division-by-zero message. */
  function Combine(t: string, left: real, right: real): Result<Option<real>, string>
  {
    if t == "+" then Ok(Some(left + right))
    else if t == "-" then Ok(Some(left - right))
    else if t == "*" then Ok(Some(left * right))
    else if t == "/" then (if right == 0.0 then Err(DivisionByZero) else Ok(Some(left / right)))
    else Ok(None)
  }

  /** One token read with the stack of values (top at index 0): the new
      stack, or the message the evaluator returns. */
  function EvalStep(stack: seq<real>, t: string, prefix: bool): Result<seq<real>, string>
  {
    if IsNumberToken(t) then Ok([NumberValue(t)] + stack)
    else if |stack| < 2 then Err(InvalidExpression)
    else
      var left := if prefix then stack[0] else stack[1];
      var right := if prefix then stack[1] else stack[0];
      match Combine(t, left, right)
      case Ok(Some(v)) => Ok([v] + stack[2..])
      case Ok(None) => Ok(stack[2..])
      case Err(m) => Err(m)
  }

  /** The evaluation loop from the given stack on, then the final check
      that exactly one value remains. Every error is one of the two
      messages. */
  function EvalFrom(stack: seq<real>, tokens: seq<string>, prefix: bool): (r: Outcome)
    ensures r.Error? ==> r.message == InvalidExpression || r.message == DivisionByZero
    decreases |tokens|
  {
    if tokens == [] then (if |stack| == 1 then Value(stack[0]) else Error(InvalidExpression))
    else
      match EvalStep(stack, tokens[0], prefix)
      case Ok(next) => EvalFrom(next, tokens[1..], prefix)
      case Err(m) => Error(m)
  }

  /** evaluate_postfix */
  function PostfixValue(expression: string): Outcome
  {
    EvalFrom([], SplitWords(expression), false)
  }

  /** evaluate_prefix */
  function PrefixValue(expression: string): Outcome
  {
    EvalFrom([], Reverse(SplitWords(expression)), true)
  }

  // ---------------------------------------------------------------------
  // Expression trees: what a postfix or prefix expression means

  datatype Expr = Num(n: int) | Op(op: char, left: Expr, right: Expr)

  predicate IsArithmetic(c: char)
  {
    c == '+' || c == '-' || c == '*' || c == '/'
  }

  predicate Arithmetic(e: Expr)
  {
    match e
    case Num(_) => true
    case Op(c, l, r) => IsArithmetic(c) && Arithmetic(l) && Arithmetic(r)
  }

  /** One arithmetic operator applied to its left and right operands. */
  function Apply(c: char, a: real, b: real): (r: Outcome)
    requires IsArithmetic(c)
    ensures r.Error? ==> r == Error(DivisionByZero)
  {
    if c == '+' then Value(a + b)
    else if c == '-' then Value(a - b)
    else if c == '*' then Value(a * b)
    else if b == 0.0 then Error(DivisionByZero)
    else Value(a / b)
  }

  /** The value of the tree, or the division-by-zero message. */
  function Denote(e: Expr): (r: Outcome)
    requires Arithmetic(e)
    ensures r.Error? ==> r == Error(DivisionByZero)
  {
    match e
    case Num(n) => Value(n as real)
    case Op(c, l, r) =>
      var a := Denote(l);
      var b := Denote(r);
      if a.Error? then a
      else if b.Error? then b
      else Apply(c, a.v, b.v)
  }

  /** str(n) */
  function Numeral(n: int): string
  {
    if n < 0 then "-" + NatToString(-n) else NatToString(n)
  }

  function PostfixOf(e: Expr): seq<string>
  {
    match e
    case Num(n) => [Numeral(n)]
    case Op(c, l, r) => PostfixOf(l) + PostfixOf(r) + [[c]]
  }

  function PrefixOf(e: Expr): seq<string>
  {
    match e
    case Num(n) => [Numeral(n)]
    case Op(c, l, r) => [[c]] + PrefixOf(l) + PrefixOf(r)
  }

  /** int(str(n)) == n. */
  lemma NumeralValue(n: int)
    ensures IsNumberToken(Numeral(n)) && NumberValue(Numeral(n)) == n as real
    ensures IsWord(Numeral(n))
  {
    if n < 0 {
      NegativeNumeral(-n);
    } else {
      NatToStringRoundTrip(n);
    }
  }

  lemma NegativeNumeral(m: nat)
    requires m > 0
    ensures IsNumberToken("-" + NatToString(m)) && !IsNumeral("-" + NatToString(m))
    ensures NumberValue("-" + NatToString(m)) == - (m as real)
    ensures IsWord("-" + NatToString(m))
  {
    NatToStringRoundTrip(m);
    var t := "-" + NatToString(m);
    assert t[0] == '-' && !IsDigit(t[0]);
    assert t[1..] == NatToString(m);
  }

  lemma OperatorToken(c: char)
    requires IsArithmetic(c)
    ensures !IsNumberToken([c]) && IsWord([c])
  {
    assert [c][0] == c && [c][1..] == [];
  }

  /** A numeral token pushes its value. */
  lemma ReadNumeral(n: int, stack: seq<real>, rest: seq<string>, prefix: bool)
    ensures EvalFrom(stack, [Numeral(n)] + rest, prefix) == EvalFrom([n as real] + stack, rest, prefix)
  {
    NumeralValue(n);
    assert ([Numeral(n)] + rest)[0] == Numeral(n);
    assert ([Numeral(n)] + rest)[1..] == rest;
  }

  /** An arithmetic operator token replaces its two operands by their
      result, or stops with the division-by-zero message; the left operand
      is the second value from the top in postfix and the top in prefix. */
  lemma ReadOperator(c: char, a: real, b: real, stack: seq<real>, rest: seq<string>, prefix: bool)
    requires IsArithmetic(c)
    ensures EvalFrom(if prefix then [a, b] + stack else [b, a] + stack, [[c]] + rest, prefix)
         == if Apply(c, a, b).Value? then EvalFrom([Apply(c, a, b).v] + stack, rest, prefix) else Apply(c, a, b)
  {
    OperatorToken(c);
    CombineApply(c, a, b);
    var s := if prefix then [a, b] + stack else [b, a] + stack;
    assert ([[c]] + rest)[0] == [c] && ([[c]] + rest)[1..] == rest;
    assert s[2..] == stack;
  }

  /** The operator branches of the loops agree with the arithmetic of the
      tree. */
  lemma CombineApply(c: char, a: real, b: real)
    requires IsArithmetic(c)
    ensures Combine([c], a, b) == if Apply(c, a, b).Value? then Ok(Some(Apply(c, a, b).v)) else Err(DivisionByZero)
  {
    assert [c] == "+" <==> c == '+';
    assert [c] == "-" <==> c == '-';
    assert [c] == "*" <==> c == '*';
    assert [c] == "/" <==> c == '/';
  }

  /** Reading the postfix form of a tree pushes its value, or stops with
      the division-by-zero message. */
  lemma {:induction false} PostfixEvaluates(e: Expr, stack: seq<real>, rest: seq<string>)
    requires Arithmetic(e)
    ensures EvalFrom(stack, PostfixOf(e) + rest, false)
         == if Denote(e).Value? then EvalFrom([Denote(e).v] + stack, rest, false) else Denote(e)
  {
    match e
    case Num(n) =>
      ReadNumeral(n, stack, rest, false);
    case Op(c, l, r) =>
      PostfixSplit(c, l, r, rest);
      PostfixEvaluates(l, stack, PostfixOf(r) + ([[c]] + rest));
      if Denote(l).Value? {
        PostfixEvaluates(r, [Denote(l).v] + stack, [[c]] + rest);
        if Denote(r).Value? {
          ReadOperator(c, Denote(l).v, Denote(r).v, stack, rest, false);
          assert [Denote(r).v] + ([Denote(l).v] + stack) == [Denote(r).v, Denote(l).v] + stack;
        }
      }
  }

  /** Reading the prefix form of a tree from the right pushes its value, or
      stops with the division-by-zero message. */
  lemma {:induction false} PrefixEvaluates(e: Expr, stack: seq<real>, rest: seq<string>)
    requires Arithmetic(e)
    ensures EvalFrom(stack, Reverse(PrefixOf(e)) + rest, true)
         == if Denote(e).Value? then EvalFrom([Denote(e).v] + stack, rest, true) else Denote(e)
  {
    match e
    case Num(n) =>
      assert Reverse(PrefixOf(e)) == [Numeral(n)];
      ReadNumeral(n, stack, rest, true);
    case Op(c, l, r) =>
      PrefixReversed(c, l, r, rest);
      PrefixEvaluates(r, stack, Reverse(PrefixOf(l)) + ([[c]] + rest));
      if Denote(r).Value? {
        PrefixEvaluates(l, [Denote(r).v] + stack, [[c]] + rest);
        if Denote(l).Value? {
          ReadOperator(c, Denote(l).v, Denote(r).v, stack, rest, true);
          assert [Denote(l).v] + ([Denote(r).v] + stack) == [Denote(l).v, Denote(r).v] + stack;
        }
      }
  }

  lemma PostfixSplit(c: char, l: Expr, r: Expr, rest: seq<string>)
    ensures PostfixOf(Op(c, l, r)) + rest == PostfixOf(l) + (PostfixOf(r) + ([[c]] + rest))
  {
  }

  lemma PrefixReversed(c: char, l: Expr, r: Expr, rest: seq<string>)
    ensures Reverse(PrefixOf(Op(c, l, r))) + rest == Reverse(PrefixOf(r)) + (Reverse(PrefixOf(l)) + ([[c]] + rest))
  {
    ReverseAppend([[c]] + PrefixOf(l), PrefixOf(r));
    ReverseAppend([[c]], PrefixOf(l));
    assert Reverse([[c]]) == [[c]];
  }

  lemma {:induction false} PostfixWords(e: Expr)
    requires Arithmetic(e)
    ensures forall i :: 0 <= i < |PostfixOf(e)| ==> IsWord(PostfixOf(e)[i])
  {
    match e
    case Num(n) => NumeralValue(n);
    case Op(c, l, r) =>
      OperatorToken(c);
      PostfixWords(l);
      PostfixWords(r);
  }

  lemma {:induction false} PrefixWords(e: Expr)
    requires Arithmetic(e)
    ensures forall i :: 0 <= i < |PrefixOf(e)| ==> IsWord(PrefixOf(e)[i])
  {
    match e
    case Num(n) => NumeralValue(n);
    case Op(c, l, r) =>
      OperatorToken(c);
      PrefixWords(l);
      PrefixWords(r);
  }

  /** evaluate_postfix of the space-separated postfix form of an
      arithmetic tree is the tree's value, or the division-by-zero message. */
  lemma PostfixCorrect(e: Expr)
    requires Arithmetic(e)
    ensures PostfixValue(JoinWith(PostfixOf(e), " ")) == Denote(e)
  {
    PostfixWords(e);
    SplitJoinRoundTrip(PostfixOf(e));
    PostfixEvaluates(e, [], []);
    assert PostfixOf(e) + [] == PostfixOf(e);
  }

  /** evaluate_prefix of the space-separated prefix form of an arithmetic
      tree is the tree's value, or the division-by-zero message. */
  lemma PrefixCorrect(e: Expr)
    requires Arithmetic(e)
    ensures PrefixValue(JoinWith(PrefixOf(e), " ")) == Denote(e)
  {
    PrefixWords(e);
    SplitJoinRoundTrip(PrefixOf(e));
    PrefixEvaluates(e, [], []);
    assert Reverse(PrefixOf(e)) + [] == Reverse(PrefixOf(e));
  }

  // ---------------------------------------------------------------------
  // The conversions on fully parenthesised expressions

  /** The fully parenthesised infix tokens of a tree: every operator between
      its two operands, the three inside one pair of parentheses. */
  function InfixOf(e: Expr): seq<string>
  {
    match e
    case Num(n) => [Numeral(n)]
    case Op(c, l, r) => ["("] + InfixOf(l) + [[c]] + InfixOf(r) + [")"]
  }

  /** The tree with the two operands of every operator exchanged. */
  function Mirrored(e: Expr): Expr
  {
    match e
    case Num(_) => e
    case Op(c, l, r) => Op(c, Mirrored(r), Mirrored(l))
  }

  /** A numeral, signed or not, is copied to the output by both passes. */
  lemma NumeralOperand(n: int)
    ensures IsOperand(Numeral(n))
  {
    if n >= 0 {
      NatToStringRoundTrip(n);
      var t := NatToString(n);
      assert forall i :: 0 <= i < |t| ==> IsAlnum(t[i]);
    } else {
      NatToStringRoundTrip(-n);
      var t := Numeral(n);
      assert t[0] == '-' && t[1..] == NatToString(-n);
    }
  }

  /** An arithmetic operator is neither an operand nor a parenthesis, and it
      ranks above a '(' on the stack. */
  lemma OperatorShape(c: char)
    requires IsArithmetic(c)
    ensures !IsOperand([c]) && [c] != "(" && [c] != ")" && Precedence([c]) >= 1
  {
    var t := [c];
    assert t[0] == c && !IsAlnum(c) && !IsAlnumToken(t);
    assert t[1..] == [] && !IsNumeral(t[1..]);
    assert "("[0] == '(' && ")"[0] == ')';
  }

  lemma RunCons(st: Shunt, x: string, s: seq<string>, strict: bool)
    ensures Run(st, [x] + s, strict) == Run(Step(st, x, strict), s, strict)
  {
    assert ([x] + s)[0] == x && ([x] + s)[1..] == s;
  }

  /** '(' goes on the stack. */
  lemma OpenStep(out: seq<string>, ops: seq<string>, s: seq<string>, strict: bool)
    ensures Run(Shunt(out, ops), ["("] + s, strict) == Run(Shunt(out, ["("] + ops), s, strict)
  {
    assert "("[0] == '(' && !IsAlnum('(');
    assert !IsOperand("(");
    RunCons(Shunt(out, ops), "(", s, strict);
  }

  /** An operator arriving on a '(' pops nothing and goes on the stack. */
  lemma OperatorStep(c: char, out: seq<string>, ops: seq<string>, s: seq<string>, strict: bool)
    requires IsArithmetic(c)
    ensures Run(Shunt(out, ["("] + ops), [[c]] + s, strict) == Run(Shunt(out, [[c], "("] + ops), s, strict)
  {
    var open := ["("] + ops;
    OperatorShape(c);
    assert PopCount(open, Precedence([c]), strict) == 0;
    assert Step(Shunt(out, open), [c], strict) == Shunt(out, [[c], "("] + ops) by {
      assert out + open[..0] == out && [[c]] + open[0..] == [[c], "("] + ops;
    }
    RunCons(Shunt(out, open), [c], s, strict);
  }

  /** ')' pops the operator above its '(' to the output and drops the '('. */
  lemma CloseStep(c: char, out: seq<string>, ops: seq<string>, s: seq<string>, strict: bool)
    requires IsArithmetic(c)
    ensures Run(Shunt(out, [[c], "("] + ops), [")"] + s, strict) == Run(Shunt(out + [[c]], ops), s, strict)
  {
    var pushed := [[c], "("] + ops;
    OperatorShape(c);
    assert ")"[0] == ')' && !IsAlnum(')');
    assert !IsOperand(")");
    assert OpenIndex(pushed[1..]) == 0;
    assert OpenIndex(pushed) == 1;
    assert Step(Shunt(out, pushed), ")", strict) == Shunt(out + [[c]], ops) by {
      assert pushed[..1] == [[c]] && pushed[2..] == ops;
    }
    RunCons(Shunt(out, pushed), ")", s, strict);
  }

  /** The pass over the tokens of a fully parenthesised tree appends the
      tree's postfix form to the output and leaves the stack as it found
      it, whatever the stack holds and in both passes: inside the
      parentheses the operator meets a '(' on top, which it never pops. */
  lemma {:induction false} RunInfix(e: Expr, out: seq<string>, ops: seq<string>, rest: seq<string>, strict: bool)
    requires Arithmetic(e)
    ensures Run(Shunt(out, ops), InfixOf(e) + rest, strict) == Run(Shunt(out + PostfixOf(e), ops), rest, strict)
  {
    match e
    case Num(n) =>
      NumeralOperand(n);
      RunCons(Shunt(out, ops), Numeral(n), rest, strict);
    case Op(c, l, r) =>
      var afterR := [")"] + rest;
      var afterOp := [[c]] + (InfixOf(r) + afterR);
      assert InfixOf(e) + rest == ["("] + (InfixOf(l) + afterOp);
      OpenStep(out, ops, InfixOf(l) + afterOp, strict);
      RunInfix(l, out, ["("] + ops, afterOp, strict);
      OperatorStep(c, out + PostfixOf(l), ops, InfixOf(r) + afterR, strict);
      RunInfix(r, out + PostfixOf(l), [[c], "("] + ops, afterR, strict);
      CloseStep(c, out + PostfixOf(l) + PostfixOf(r), ops, rest, strict);
      assert out + PostfixOf(l) + PostfixOf(r) + [[c]] == out + PostfixOf(e);
  }

  /** infix_to_postfix converts: the fully parenthesised infix tokens of an
      arithmetic tree become exactly its postfix form. */
  lemma ConvertsToPostfix(e: Expr)
    requires Arithmetic(e)
    ensures PostfixTokens(InfixOf(e)) == PostfixOf(e)
  {
    RunInfix(e, [], [], [], false);
    assert InfixOf(e) + [] == InfixOf(e);
    assert [] + PostfixOf(e) + [] == PostfixOf(e);
  }

  lemma {:induction false} MirroredArithmetic(e: Expr)
    requires Arithmetic(e)
    ensures Arithmetic(Mirrored(e))
  {
    match e
    case Num(_) =>
    case Op(c, l, r) =>
      MirroredArithmetic(l);
      MirroredArithmetic(r);
  }

  /** Reversing a bracketed operation reverses its two operands and swaps
      their places. */
  lemma ReverseWrap<T>(p: T, a: seq<T>, x: T, b: seq<T>, q: T)
    ensures Reverse([p] + a + [x] + b + [q]) == [q] + Reverse(b) + [x] + Reverse(a) + [p]
  {
    ReverseAppend([p] + a + [x] + b, [q]);
    ReverseAppend([p] + a + [x], b);
    ReverseAppend([p] + a, [x]);
    ReverseAppend([p], a);
  }

  /** Exchanging the parentheses of a bracketed operation. */
  lemma SwappedWrap(a: seq<string>, x: string, b: seq<string>)
    requires Mirror(x) == x
    ensures Swapped([")"] + a + [x] + b + ["("]) == ["("] + Swapped(a) + [x] + Swapped(b) + [")"]
  {
    MirrorFacts("(");
    MirrorFacts(")");
    var lhs := Swapped([")"] + a + [x] + b + ["("]);
    var rhs := ["("] + Swapped(a) + [x] + Swapped(b) + [")"];
    assert |lhs| == |rhs|;
    forall i | 0 <= i < |lhs| ensures lhs[i] == rhs[i] {
      if i == 0 {
      } else if i <= |a| {
        assert lhs[i] == Mirror(a[i - 1]);
      } else if i == |a| + 1 {
      } else if i <= |a| + 1 + |b| {
        assert lhs[i] == Mirror(b[i - |a| - 2]);
      }
    }
  }

  /** Reversing the infix tokens and exchanging the parentheses gives the
      infix tokens of the mirrored tree. */
  lemma {:induction false} MirrorInfix(e: Expr)
    requires Arithmetic(e)
    ensures Swapped(Reverse(InfixOf(e))) == InfixOf(Mirrored(e))
  {
    match e
    case Num(n) =>
      NumeralOperand(n);
      MirrorFacts(Numeral(n));
      assert Reverse([Numeral(n)]) == [Numeral(n)];
    case Op(c, l, r) =>
      MirrorInfix(l);
      MirrorInfix(r);
      OperatorShape(c);
      MirrorFacts([c]);
      ReverseWrap("(", InfixOf(l), [c], InfixOf(r), ")");
      SwappedWrap(Reverse(InfixOf(r)), [c], Reverse(InfixOf(l)));
  }

  /** The postfix form of the mirrored tree, reversed, is the prefix form. */
  lemma {:induction false} ReverseMirrored(e: Expr)
    ensures Reverse(PostfixOf(Mirrored(e))) == PrefixOf(e)
  {
    match e
    case Num(n) =>
      assert Reverse([Numeral(n)]) == [Numeral(n)];
    case Op(c, l, r) =>
      ReverseMirrored(l);
      ReverseMirrored(r);
      var pr, pl := PostfixOf(Mirrored(r)), PostfixOf(Mirrored(l));
      ReverseAppend(pr + pl, [[c]]);
      ReverseAppend(pr, pl);
  }

  /** infix_to_prefix converts: the fully parenthesised infix tokens of an
      arithmetic tree become exactly its prefix form. */
  lemma ConvertsToPrefix(e: Expr)
    requires Arithmetic(e)
    ensures PrefixTokens(InfixOf(e)) == PrefixOf(e)
  {
    MirrorInfix(e);
    MirroredArithmetic(e);
    RunInfix(Mirrored(e), [], [], [], true);
    assert InfixOf(Mirrored(e)) + [] == InfixOf(Mirrored(e));
    assert [] + PostfixOf(Mirrored(e)) + [] == PostfixOf(Mirrored(e));
    ReverseMirrored(e);
  }

  /** The result infix_to_postfix reports for the infix tokens of a tree is
      the tree's value, or the division-by-zero message. */
  lemma PostfixOfInfix(e: Expr)
    requires Arithmetic(e)
    ensures PostfixValue(JoinWith(PostfixTokens(InfixOf(e)), " ")) == Denote(e)
  {
    ConvertsToPostfix(e);
    PostfixCorrect(e);
  }

  /** The same for infix_to_prefix. */
  lemma PrefixOfInfix(e: Expr)
    requires Arithmetic(e)
    ensures PrefixValue(JoinWith(PrefixTokens(InfixOf(e)), " ")) == Denote(e)
  {
    ConvertsToPrefix(e);
    PrefixCorrect(e);
  }

  // ---------------------------------------------------------------------
  // The error cases

  /** An operator with fewer than two values on the stack is an invalid
      expression. */
  lemma MissingOperand(stack: seq<real>, t: string, rest: seq<string>, prefix: bool)
    requires !IsNumberToken(t) && |stack| < 2
    ensures EvalFrom(stack, [t] + rest, prefix) == Error(InvalidExpression)
  {
    assert ([t] + rest)[0] == t;
  }

  /** A zero right operand of '/' stops the evaluation with the
      division-by-zero message, whatever follows. */
  lemma ZeroDivisor(a: real, stack: seq<real>, rest: seq<string>, prefix: bool)
    ensures EvalFrom(if prefix then [a, 0.0] + stack else [0.0, a] + stack, ["/"] + rest, prefix) == Error(DivisionByZero)
  {
    assert (["/"] + rest)[0] == "/";
    assert !IsNumberToken("/") by {
      assert "/"[0] == '/';
    }
  }

  /** Unless exactly one value remains at the end, the expression is
      invalid. */
  lemma LeftoverValues(stack: seq<real>, prefix: bool)
    ensures EvalFrom(stack, [], prefix) == if |stack| == 1 then Value(stack[0]) else Error(InvalidExpression)
  {
  }

  /** An operator without a branch ('^' among them) consumes its two
      operands and pushes nothing. */
  lemma UnknownOperator(a: real, b: real, stack: seq<real>, rest: seq<string>, prefix: bool)
    ensures EvalFrom([a, b] + stack, ["^"] + rest, prefix) == EvalFrom(stack, rest, prefix)
  {
    assert (["^"] + rest)[0] == "^" && (["^"] + rest)[1..] == rest;
    assert !IsNumberToken("^") by {
      assert "^"[0] == '^';
    }
    assert "^" != "+" && "^" != "-" && "^" != "*" && "^" != "/" by {
      assert "^"[0] == '^';
    }
    assert ([a, b] + stack)[2..] == stack;
  }

  // ---------------------------------------------------------------------
  // The loops, on the linked Stack

  /** One token of either evaluation loop, on the stack object: Ok with
      the stack updated, or the error message with nothing more to do. */
  method ReadValue(stack: Stack<real>, token: string, prefix: bool) returns (r: Result<(), string>)
    requires stack.Valid()
    modifies stack
    ensures stack.Valid() && fresh(stack.Repr - old(stack.Repr))
    ensures match EvalStep(old(stack.Contents), token, prefix)
            case Ok(next) => r.Ok? && stack.Contents == next
            case Err(m) => r == Err(m)
  {
    if IsNumberToken(token) {
      stack.Push(NumberValue(token));
      return Ok(());
    }
    var size := stack.Size();
    if size < 2 {
      return Err(InvalidExpression);
    }
    ghost var before := stack.Contents;
    var first := stack.Pop();
    var second := stack.Pop();
    var operand1 := if prefix then first.value else second.value;
    var operand2 := if prefix then second.value else first.value;
    match Combine(token, operand1, operand2)
    case Ok(Some(v)) =>
      stack.Push(v);
      return Ok(());
    case Ok(None) =>
      return Ok(());
    case Err(m) =>
      return Err(m);
  }

  /** The end of either loop: the single remaining value, or the invalid
      expression message. */
  method FinalValue(stack: Stack<real>) returns (r: Outcome)
    requires stack.Valid()
    modifies stack
    ensures r == EvalFrom(old(stack.Contents), [], false)
  {
    var size := stack.Size();
    if size == 1 {
      var top := stack.Pop();
      return Value(top.value);
    }
    return Error(InvalidExpression);
  }

  /** evaluate_postfix, with a fresh linked Stack. */
  method EvaluatePostfix(expression: string) returns (r: Outcome)
    ensures r == PostfixValue(expression)
  {
    var stack := new Stack<real>();
    var tokens := SplitWords(expression);
    for i := 0 to |tokens|
      invariant stack.Valid() && fresh(stack.Repr)
      invariant EvalFrom(stack.Contents, tokens[i..], false) == PostfixValue(expression)
    {
      assert tokens[i..][1..] == tokens[i + 1..];
      var step := ReadValue(stack, tokens[i], false);
      if step.Err? {
        return Error(step.error);
      }
    }
    r := FinalValue(stack);
  }

  /** evaluate_prefix, with a fresh linked Stack, reading the tokens from
      the last to the first. */
  method EvaluatePrefix(expression: string) returns (r: Outcome)
    ensures r == PrefixValue(expression)
  {
    var stack := new Stack<real>();
    var tokens := SplitWords(expression);
    var i := |tokens|;
    assert tokens[..i] == tokens;
    while i > 0
      invariant 0 <= i <= |tokens|
      invariant stack.Valid() && fresh(stack.Repr)
      invariant EvalFrom(stack.Contents, Reverse(tokens[..i]), true) == PrefixValue(expression)
    {
      ReverseLast(tokens, i);
      i := i - 1;
      var step := ReadValue(stack, tokens[i], true);
      if step.Err? {
        return Error(step.error);
      }
    }
    r := FinalValue(stack);
  }

  lemma ReverseLast(tokens: seq<string>, i: nat)
    requires 0 < i <= |tokens|
    ensures Reverse(tokens[..i]) == [tokens[i - 1]] + Reverse(tokens[..i - 1])
  {
  }
}
